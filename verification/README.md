# A Dafny model of the memcached-style cache engine and text protocol

This project models two C files of a memory cache server.

- `src/cache.c` is the cache engine. It keeps a table of `size` bucket chains indexed by a 64-bit key hash. Each slot is covered by one of `nregions` lock regions. A recency (LRU) queue holds one handle per stored entry. There are two statistics registers, one for text mode and one for binary mode. The engine offers `cache_init`, `cache_get`, `cache_put`, `cache_del` and `cache_stats`.
- `src/text_protocol.c` is the text wire protocol:
  - `text_handler` cuts the connection buffer into newline-terminated lines;
  - `text_parser` tokenises a line with `strtok_r` on space and tab, and classifies it as STATS, GET, DEL, PUT or EUNK;
  - `answer_text_client` writes `CODE[ payload]\n`, or `EBIG\n` when the response is too long.

Every cache operation is one pure state transition on an immutable `Cache` value. The bucket chains and the recency queue are sequences:

- a chain is in insertion order;
- the queue runs from least to most recently used, so the most recent handle is the LAST element.

The operations need only the table's shape (`WellFormed`). The properties are stated under the representation invariant `CacheEngine.Valid`:

- every entry sits in the slot its key hashes to;
- no mode/key pair is stored twice in a chain;
- the queue has no duplicates;
- stored entries and queue handles correspond one to one.

Through `CacheProperties.Holds` the table is read as a map from (mode, key) to value. Text and binary keys are disjoint in that map.

Several things outside the two files are parameters of the protocol model:

- the frame limit `TEXT_LIMIT_SIZE`;
- the token cap `TEXT_MAX_TOKS`;
- the code names (`code_str`);
- the request router (`make_cache_request`). It is a function `route` that threads a state of any type `S`.

`TextHandler.Serve` is the reference semantics of a buffer: its complete lines are turned into requests, routed in order, and the answers concatenated. `TextHandler.Handle` is the C loop (memchr, dispatch, answer, memmove), and it is proved equal to `Serve`.

Modules:

- `Common`: bytes, `Option`, `Mode`, `Code`, `IndexOf` (memchr), `Count`;
- `Hash`: `hash_bytes`, `NROW`, `NREGION`;
- `BucketChain`, `LruQueue`: the `ll.h` chain and queue operations, stated by what the cache relies on;
- `CacheEngine`, `CacheProperties`;
- `TextTokens`, `TextConfig`, `TextParser`, `TextAnswer`, `TextHandler`.

## Model

| member | source | states |
|---|---|---|
| Hash.HashLoop | src/cache.c:21-26 | The C loop computes the 64-bit wrapping hash with signed chars. The result equals the unbounded polynomial sum of c_i * 31^(n-1-i), reduced modulo 2^64. |
| Hash.HashIsPolyModWord | src/cache.c:21-26 | Wrapping at every step of the hash gives the same value as reducing the exact polynomial once modulo 2^64. |
| Hash.Slot | src/cache.c:29 | The bucket index `hash % size` is always a valid slot, below `size`. |
| Hash.Region | src/cache.c:30 | The lock region `idx % nregions` is always below `nregions`. |
| CacheEngine.Init | src/cache.c:37-59 | `cache_init` gives `size` empty chains, an empty queue and both registers at the initial snapshot. When size and nregions are non-zero the result satisfies the invariant. |
| CacheEngine.Get | src/cache.c:74-90 | The code is OK exactly when the mode/key is in its slot's chain. A hit returns a value stored under that mode/key and promotes its handle to most recent. A miss returns ENOTFOUND, no value, and the state unchanged. Only the queue changes. |
| CacheEngine.Put | src/cache.c:92-116 | The code is always OK. Only the key's slot and the queue change. The entry (mode, key, val) ends up in the slot. A hit keeps the chain length and promotes the key's handle to most recent (`reset_lru_status`). A miss appends exactly that entry and pushes its new handle as most recent (`lru_push`). Either way the other handles keep their order. |
| CacheEngine.Del | src/cache.c:118-134 | The code is OK exactly when the key is in its slot. A miss leaves the state unchanged. A hit shortens that chain by one and removes exactly that handle from the queue. Other slots are unchanged. |
| CacheEngine.Stats | src/cache.c:136-152 | The code is OK exactly for TEXT_MODE and BIN_MODE, and each returns its own register. Any other mode gives EUNK with no statistics. |
| CacheProperties.InitHoldsNothing | src/cache.c:55-56 | A freshly initialised cache holds no value under any mode and key, so every `get` on it answers ENOTFOUND. |
| CacheProperties.HoldsInItsSlot | src/cache.c:75-77 | Under the invariant, a mode/key/value is stored somewhere in the table iff it is stored in the slot its key hashes to. |
| CacheProperties.GetReadsContents | src/cache.c:74-90 | `get` returns v iff the map holds v under that mode and key. OK coincides with a value being returned. |
| CacheProperties.GetPreservesValid | src/cache.c:74-90 | A recency refresh keeps the representation invariant. |
| CacheProperties.PutPreservesValid | src/cache.c:92-116 | `put`, on the hit path and on the miss path, keeps the representation invariant, including the one-to-one entry/handle correspondence. |
| CacheProperties.DelPreservesValid | src/cache.c:118-134 | `del` keeps the representation invariant. |
| CacheProperties.PutContents | src/cache.c:92-116 | After `put(mode, key, val)` the map holds val under (mode, key) and nothing else there. Every other mode/key holds exactly what it held before. |
| CacheProperties.DelContents | src/cache.c:118-134 | After `del(mode, key)` the map holds nothing under (mode, key). Every other mode/key holds exactly what it held before. |
| CacheProperties.PutThenGet | src/cache.c:92-116 | Round trip: `get` right after `put` of the same mode and key answers OK with the value put. |
| CacheProperties.PutIsolation | src/cache.c:92-116 | `put` on one mode/key does not change the code or value of `get` on any other mode/key. This includes the same key bytes in the other mode. |
| CacheProperties.DelIsolation | src/cache.c:118-134 | `del` on one mode/key does not change the code or value of `get` on any other mode/key. |
| CacheProperties.DelThenGet | src/cache.c:118-134 | After `del`, `get` of that mode/key answers ENOTFOUND, and the queue no longer holds its handle. |
| CacheProperties.PutEntryCount | src/cache.c:97-113 | Overwriting a stored key adds neither an entry nor a handle. A new key adds exactly one of each. |
| CacheProperties.GetRecency | src/cache.c:87 | After hits on A, B and A again, A is the most recent handle and B the next one. Every other handle is therefore less recent than both. |
| BucketChain.Search | src/cache.c:77 | `list_search` returns the first position whose mode and key match, or none exactly when no entry matches. |
| BucketChain.SearchFindsTheOnlyMatch | src/cache.c:77 | In a duplicate-free chain, search finds the one matching entry, wherever it is. |
| BucketChain.Insert | src/cache.c:101 | `list_insert` appends the entry. The chain then contains exactly the old entries plus the new one. |
| BucketChain.Update | src/cache.c:106-111 | `list_set_data` rewrites the value at one position. Other positions and the set of mode/key pairs are unchanged. |
| BucketChain.UpdateContents | src/cache.c:106-111 | In a duplicate-free chain, after the update exactly the rewritten mode/key carries the new value. All other entries stay. |
| BucketChain.RemoveAt | src/cache.c:122 | Unlinking keeps every other entry in order and shortens the chain by one. |
| BucketChain.RemoveAtContents | src/cache.c:122 | An entry remains after the unlink iff it was at some other position. |
| BucketChain.RemoveAtKeepsUnique | src/cache.c:122 | Unlinking keeps the chain free of duplicate mode/key pairs. |
| BucketChain.RemoveAtInChain | src/cache.c:122 | In a duplicate-free chain, unlinking removes exactly the unlinked entry's mode/key. |
| LruQueue.Remove | src/cache.c:128 | `lru_remove` drops exactly the handle and keeps the queue duplicate-free. The queue shrinks by one when the handle was there, and is unchanged otherwise. |
| LruQueue.RemoveDistributes | src/cache.c:128 | Removing a handle from a concatenated queue removes it from each part, so the handles that stay keep their relative order. |
| LruQueue.Push | src/cache.c:102 | `lru_push` makes the new handle the most recent. Other handles are kept. |
| LruQueue.Promote | src/cache.c:112 | `reset_lru_status` makes the handle the most recent. The set of handles is otherwise the same, and the length is kept when the handle was present. |
| LruQueue.PromoteLastIsIdentity | src/cache.c:87 | Promoting the handle that is already the most recent leaves the queue as it was. |
| Common.IndexOf | src/text_protocol.c:33 | memchr: the position of the first newline, or none exactly when the buffer holds no newline. |
| TextTokens.NextToken | src/text_protocol.c:61-65 | One `strtok_r` on " \t" returns no token iff only spaces and tabs remain. A token is non-empty, free of spaces and tabs, and the saved rest is shorter than the input. |
| TextTokens.Tokens | src/text_protocol.c:61-70 | Every token is non-empty and free of spaces and tabs. There are no tokens iff the line is blank. |
| TextTokens.NextTokenDecomposes | src/text_protocol.c:61-65 | One `strtok_r` step splits the line into a run of blanks, the returned token, at most one blank separator (the one overwritten with NUL) and the saved rest, in that order. An empty separator leaves nothing to save. |
| TextTokens.TokensCoverLine | src/text_protocol.c:61-70 | The tokens, concatenated, are exactly the line's non-blank bytes in order. |
| TextTokens.TokensCountWords | src/text_protocol.c:61-70 | There is one token per word of the line, a word being a non-blank byte that starts the line or follows a blank. |
| TextParser.Parse | src/text_protocol.c:55-92 | The result is always one of STATS, GET, DEL, PUT or EUNK, never EINVALID. It is STATS, GET, DEL or PUT exactly when the count of tokens read, capped at TEXT_MAX_TOKS, is 1, 2, 2 or 3 and the first token is that operation's name (DEL only when that name differs from GET's). A blank line is EUNK. Each length is the length of its token. |
| TextParser.ParseArguments | src/text_protocol.c:64-70 | The arguments are the tokens after the operation name, up to the cap. Each is non-empty and free of spaces and tabs. A blank line has none. |
| TextParser.PutIgnoresExtraTokens | src/text_protocol.c:72-81 | With a cap of three, `PUT k v extra…` is still PUT with arguments k and v. The EINVALID assigned for the extra token is overwritten. |
| TextParser.ExtraArgumentIsUnknown | src/text_protocol.c:72-83 | With a cap of three, any three-token line not named PUT (for example `GET k extra`) is EUNK. |
| TextAnswer.Answer | src/text_protocol.c:94-113 | The response ends in a newline. If payload length plus code-name length exceeds the limit it is exactly `EBIG\n`. Otherwise it starts with the code name and is at most limit+2 bytes long. |
| TextAnswer.AnswerReadsBack | src/text_protocol.c:94-113 | Round trip: reading the response back (drop the newline, split at the first space) gives the code name and payload the router returned, or `EBIG` with no payload. |
| TextHandler.NextFrame | src/text_protocol.c:33-34 | A framing step exists iff the buffer holds a newline. The line holds no newline, and the step consumes the line and exactly one newline. |
| TextHandler.NextFrameSplits | src/text_protocol.c:33-50 | The buffer is the line, the newline and the remaining bytes, in order. |
| TextHandler.BufferIsLinesThenResidue | src/text_protocol.c:33-51 | Nothing is lost or reordered: the buffer is its newline-terminated lines followed by the left-over bytes. |
| TextHandler.NoNewlineLeft | src/text_protocol.c:33-51 | No line and no left-over byte sequence contains a newline. |
| TextHandler.OneLinePerNewline | src/text_protocol.c:33-51 | The number of lines equals the number of newline bytes in the buffer. |
| TextHandler.NextFrameOfPrefix | src/text_protocol.c:33-50 | Bytes arriving later do not change a framing step that was already complete. |
| TextHandler.LinesAcrossReads | src/text_protocol.c:33-51 | The lines of `a + b` are the lines of `a` followed by the lines of (left-over of `a`) + `b`. |
| TextHandler.ResidueAcrossReads | src/text_protocol.c:33-51 | What is left of `a + b` equals what is left after reading `a` and then appending `b`. |
| TextHandler.LineRequest | src/text_protocol.c:34-42 | A line longer than the limit with its newline gives EINVALID with no arguments and is not parsed. Otherwise the request carries exactly the parser's operation, tokens and lengths, and is never EINVALID. The mode is always TEXT_MODE. |
| TextHandler.RequestsAreLineRequests | src/text_protocol.c:33-43 | Each line is dispatched exactly once, in order, as its own request. An over-long line does not disturb the lines after it. |
| TextHandler.DispatchAppend | src/text_protocol.c:43-44 | Routing two request sequences one after the other equals routing their concatenation. Outputs and requests are concatenated. |
| TextHandler.ServeAppend | src/text_protocol.c:33-51 | Serving two groups of lines one after the other equals serving them together. |
| TextHandler.SplitReadsAgree | src/text_protocol.c:33-51 | Delivering `a` and then `b` in two reads gives the same responses, requests and router state as delivering `a + b` in one read, split mid-line or not. The left-over bytes also agree. |
| TextHandler.ServeFirstLine | src/text_protocol.c:33-50 | Serving a buffer is serving its first line, then the lines after it. |
| TextHandler.Handle | src/text_protocol.c:24-53 | `text_handler` produces exactly the reference semantics: the same state, output and requests. No newline is left in the buffer afterwards, and what is left is the bytes after the last newline. One request is dispatched per newline byte, and the i-th request is built from the i-th line. |

## Left out

- Locks (`pthread_rwlock_*`, `pthread_mutex_*`, `RD_LOCK_ROW`/`WR_LOCK_ROW`): each operation is one atomic transition, and the interleavings of concurrent connections are not modelled. `Hash.Region` only states which region a slot falls in.
- `cache_try_dismiss`, `cache_destroy` and `cache_get_lru_queue`: eviction and teardown are not part of this model.
- `malloc`, `memcpy` and `free`: values are immutable byte sequences. The copy-out in `get` and the buffer ownership transfer in `put` have no observable counterpart.
- `ll.h` (lists and recency queue): its code is not part of this model. `list_search` is taken to match on mode and key, `list_insert` to append, and `reset_lru_status` to move a handle to the most recent end.
- `stats_init` and `struct Stats`: the register contents are an opaque `StatsSnapshot` given to `Init`. `cache.c` never updates them.
- Logging (`log`, `printf`, `perror`) and `write`: the handler returns the response bytes instead of writing them to a file descriptor.
- `make_cache_request` and `code_str`: they are parameters (`route`, `Config.codeName`). `TEXT_LIMIT_SIZE` and `TEXT_MAX_TOKS` are `Config` fields.
- TextHandler.LineRequest: on the over-long path the C code passes `toks`/`lens` arrays that are uninitialised or left from an earlier line. The model passes empty ones.
- Embedded NUL bytes: `text_parser` stops at the first NUL of a line (C strings), and the model tokenises the whole line.
- `char` is taken as signed and `unsigned long` as 64 bits (LP64 x86-64). `CacheEngine.Init` requires `size` and `nregions` below 2^32: the C fields are `uint32_t`, and the `uint32_t` loop counter in `cache_init` would never reach a larger `size`.
- `text_handler`'s integer return value (always 0) is not modelled.
- `Mode`: the chars behind `TEXT_MODE` and `BIN_MODE` are defined in a header that is not part of this model. An `OtherMode` tag is taken to be any char other than those two, so each C mode has exactly one `Mode` value.

Notes on what the code does:

- The comment at src/text_protocol.c:72 says a line with more than three tokens is invalid. The EINVALID set at line 73 is overwritten by the chain at lines 74-83, so `PUT k v extra` is PUT and `GET k extra` is EUNK. The model does the same.
- The size check at src/text_protocol.c:98 adds the payload length to the code-name length only.
- The first element of the model's queue is the least recent handle.
