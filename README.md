# cedarwood: the trie's initial layout and the benchmark key readers

This project models three small pieces of the cedarwood repository and proves their properties in Dafny.

- **`DoubleArray`** (`double_array.dfy`) covers `Block::new` and `Cedar::new` from `src/lib.rs`.
  - A fresh double-array trie owns one block of 256 nodes. Node 0 is the root.
  - Nodes 1..255 are free and chained into a circular doubly linked list through negated fields: `-check` is the next free node and `-value` the previous one.
  - `Cedar` is a class whose fields are the Rust struct's fields. The `array` field is called `nodes` because `array` is a Dafny keyword.
  - The constructor pushes the nodes in a loop and then patches the two ends of the ring, as the source does.
  - Lemmas show that the links form one ring through 1..255 and that `-value` inverts `-check`.
- **`BenchCedar`** (`bench_cedar.dfy`) covers the C++ insertion/lookup benchmark `benches/cpp/bench_cedar.cc`: `find_sep`, `insert_key`, `lookup_key`, `insert`, `lookup` and `bench`.
  - Keys are `'\n'`-terminated byte strings. Insertion streams the key file through a fixed 64 KiB buffer. It plants a `'\n'` sentinel after each read, hands every complete key to `insert_key` with values n0 + 1, n0 + 2, ..., and moves the unterminated tail to the front before the next read.
  - Lookup splits a whole in-memory buffer, counting keys and hits.
  - The key file is a sequence of chunks. One `read` delivers at most the head chunk: when the room left in the buffer is smaller, it delivers the first part and keeps the rest for the next read. The external `cedar::da` trie is a map from keys to values.
  - The buffer is an `array<byte>` that the methods update in place, with loops and invariants. Each method is proved against the specification functions `Keys`, `Rest` and `Feed`. `Feed` is the bytes the loop reads.
- **`MacroBench`** (`macro_bench.dfy`) covers the dictionary reader of the Rust macro benchmark `benches/macro-benchmark/src/main.rs`.
  - Each line is trimmed and split on Unicode whitespace. The first token is the word. The second token, parsed as a `usize`, is the frequency, and 0 when absent. The third token is the tag, and `""` when absent.
  - Blank lines are skipped without clearing the buffer. A frequency that does not parse is the `unwrap` panic, modelled as an error result.
  - `IndexBuilder::build` pairs the i-th word with `i as i32`. `query` searches every word once.
  - The `read_line` loop is a method over a sequence of lines and is proved equal to the pure `ParseAll`.

## Model

| member | source | states |
|---|---|---|
| DoubleArray.Cedar.constructor | src/lib.rs:23-84 | Sets up 256 nodes: root (-2, 0), node i links to i + 1 through -check and to i - 1 through -value, and the ring closes 255 → 1 and 1 ← 255. Also 256 default n_infos, the 257-entry reject table with reject[i] = i + 1, one block that is Block::new (prev = next = trial = 0, num 256, reject 257) with e_head then set to 1, the first free node, all three block-list heads 0, capacity = size = 256, ordered, max_trial 1. The result satisfies Valid(): a doubly linked free ring entered at e_head |
| DoubleArray.InitialIsDoublyLinkedRing | src/lib.rs:59-67 | In the initial layout both links of every free node stay within 1..255, and each link is the inverse of the other |
| DoubleArray.InitialWalk | src/lib.rs:59-67 | k steps along -check from node 1 reach node k + 1, and node 1 again after 255 steps |
| DoubleArray.InitialWalkVisitsEachOnce | src/lib.rs:59-67 | Following -check from node 1 visits 1, 2, ..., 255 in order, each exactly once, then returns to 1 |
| DoubleArray.WalkBackUndoesWalk | src/lib.rs:59-66 | On any doubly linked free ring, k steps along -value undo k steps along -check |
| BenchCedar.FindSep | benches/cpp/bench_cedar.cc:15-21 | Returns the first '\n' at or after p, writes '\0' there, and leaves every other byte unchanged. The caller must guarantee a '\n' exists |
| BenchCedar.ReadChunk | benches/cpp/bench_cedar.cc:62 | A read delivers at most `count` bytes. What it delivers followed by what remains is the stream. It delivers nothing exactly when the stream is at its end or count is 0 |
| BenchCedar.Read | benches/cpp/bench_cedar.cc:62 | The bytes a read delivers are copied to data[pos..] and stay inside the buffer. Every byte before pos and after the copied ones is kept |
| BenchCedar.MoveToFront | benches/cpp/bench_cedar.cc:66 | memmove: the len bytes at start end up, unchanged, at the front, and every byte from len on is kept |
| BenchCedar.ScanKeys | benches/cpp/bench_cedar.cc:64-65 | The for loop hands the keys of the window up to the last '\n' to insert_key, numbered on from n0. It stops where the unterminated tail begins and never scans past the sentinel |
| BenchCedar.InsertWindow | benches/cpp/bench_cedar.cc:64-65 | With the sentinel at tail_: the trie receives exactly Keys(window) in order, n grows by their count, and the unterminated tail Rest(window) is left at data[start..tail_] |
| BenchCedar.Window | benches/cpp/bench_cedar.cc:64-68 | After the sentinel, the for loop and the memmove, the front of the buffer holds Rest(window), and the trie and n account for Keys(window) |
| BenchCedar.Round | benches/cpp/bench_cedar.cc:62-68 | One loop test plus body keeps the insertion invariant: the buffer holds the tail of the bytes consumed so far, the consumed bytes followed by the rest of the feed are the whole feed, and the trie holds their keys. A read of 0 ends the feed |
| BenchCedar.Insert | benches/cpp/bench_cedar.cc:57-70 | The trie ends as the input trie with Keys(Feed([], fd)) inserted in stream order with values n0 + 1, n0 + 2, .... n ends at n0 plus their number. Keys cut by a chunk boundary count once, and the unterminated end of the file is never inserted |
| BenchCedar.FeedIsPrefix | benches/cpp/bench_cedar.cc:62 | Insertion reads a prefix of the key file and never past its end |
| BenchCedar.FeedStops | benches/cpp/bench_cedar.cc:62 | When read returns 0 the loop stops and nothing more is consumed |
| BenchCedar.FeedReadsAll | benches/cpp/bench_cedar.cc:61-68 | When no chunk is empty and every line is shorter than the buffer's room, insertion reads the whole file |
| BenchCedar.InsertedKeysOfFile | benches/cpp/bench_cedar.cc:57-70 | The keys inserted are a prefix of the file's keys, and all of them under the condition of FeedReadsAll |
| BenchCedar.FullCarryEndsInsertion | benches/cpp/bench_cedar.cc:61-67 | Once the carried tail fills the room, the next read asks for 0 bytes and insertion ends, whatever the file still holds |
| BenchCedar.KeysAppend | benches/cpp/bench_cedar.cc:66-68 | Splitting a + b splits a, then continues from a's unterminated tail followed by b. A key cut by a read boundary is therefore split as one key |
| BenchCedar.KeysRoundTrip | benches/cpp/bench_cedar.cc:64-65 | Every byte of a stream lies in a key, a separator or the unterminated tail, in order: Join(Keys(s)) + Rest(s) == s |
| BenchCedar.KeysOfJoin | benches/cpp/bench_cedar.cc:64-65 | Keys without '\n', written each followed by '\n', split back into exactly those keys with no tail |
| BenchCedar.KeysHaveNoSep | benches/cpp/bench_cedar.cc:15-21 | No key holds a '\n' |
| BenchCedar.KeysOfPrefix | benches/cpp/bench_cedar.cc:64-65 | The keys of a prefix of a stream are a prefix of the stream's keys |
| BenchCedar.SearchAfterUpdate | benches/cpp/bench_cedar.cc:47-54 | The trie's update/search law: after update(key) = n, exactMatchSearch of key yields n, and every other key searches as before |
| BenchCedar.InsertKeysAppend | benches/cpp/bench_cedar.cc:47-50 | Inserting one more key updates the trie under that key with the next number |
| BenchCedar.InsertKeysConcat | benches/cpp/bench_cedar.cc:62-68 | Inserting two runs of keys equals inserting the second into the trie the first leaves, numbering on |
| BenchCedar.LastOccurrenceWins | benches/cpp/bench_cedar.cc:47-50 | After inserting ks, the trie holds exactly the old keys and ks. A repeated key keeps n + 1 + the index of its last occurrence. Other keys are unchanged |
| BenchCedar.FoundIffInserted | benches/cpp/bench_cedar.cc:47-55 | With non-negative values, lookup_key finds a key exactly when it was there before or was inserted |
| BenchCedar.CountHits | benches/cpp/bench_cedar.cc:79-81 | The number of hits never exceeds the number of keys searched |
| BenchCedar.CountHitsAppend | benches/cpp/bench_cedar.cc:79-81 | One more searched key adds 1 to the hits exactly when lookup_key finds it |
| BenchCedar.ZeroedStep | benches/cpp/bench_cedar.cc:79 | Zeroing the separator that find_sep finds moves the zeroed prefix past it and leaves the key's bytes alone |
| BenchCedar.LookupNext | benches/cpp/bench_cedar.cc:77-82 | One loop body: the next key is searched once, count grows by 1, found grows exactly when the key is found, and its '\n' becomes '\0' |
| BenchCedar.Lookup | benches/cpp/bench_cedar.cc:73-84 | On a buffer that is empty or ends in '\n': count grows by the number of keys, found by the number of keys found, found grows by at most what count grows by, an empty buffer changes neither, and exactly the '\n' bytes become '\0' |
| BenchCedar.Bench | benches/cpp/bench_cedar.cc:86-128 | Words is the number of keys inserted. With "-" no lookup happens. Otherwise the search counts the query keys and finds exactly those that occur among the inserted keys |
| BenchCedar.HitsAreInsertedKeys | benches/cpp/bench_cedar.cc:86-128 | After inserting ks into an empty trie from 0, lookup finds exactly the queries that occur in ks |
| MacroBench.TrimStart | benches/macro-benchmark/src/main.rs:21 | trim_start returns a suffix of the string that is empty or starts with a non-whitespace character |
| MacroBench.TrimEnd | benches/macro-benchmark/src/main.rs:21 | trim_end returns a prefix of the string that is empty or ends with a non-whitespace character |
| MacroBench.TrimStartSpec | benches/macro-benchmark/src/main.rs:21 | trim_start drops whitespace only. It returns "" exactly when the string is all whitespace |
| MacroBench.TrimEndSpec | benches/macro-benchmark/src/main.rs:21 | trim_end drops whitespace only. It returns "" exactly when the string is all whitespace |
| MacroBench.SplitTokens | benches/macro-benchmark/src/main.rs:21 | split_whitespace yields non-empty tokens without whitespace |
| MacroBench.SplitRun | benches/macro-benchmark/src/main.rs:21 | After any leading whitespace, a maximal run of non-whitespace followed by whitespace is the first token, and the tokens of the remaining text follow it |
| MacroBench.SplitLastRun | benches/macro-benchmark/src/main.rs:21 | A maximal run of non-whitespace with only whitespace around it is the only token. With SplitRun and SplitEmptyIffWhitespace, this fixes split_whitespace on every input: the tokens are the maximal runs of non-whitespace, in order |
| MacroBench.SplitEmptyIffWhitespace | benches/macro-benchmark/src/main.rs:21-22 | split_whitespace yields no token exactly when the string is all whitespace |
| MacroBench.SplitIgnoresTrailing | benches/macro-benchmark/src/main.rs:19-21 | Trailing whitespace, such as the line break read_line keeps, does not change the tokens |
| MacroBench.TrimThenSplit | benches/macro-benchmark/src/main.rs:21 | trim before split_whitespace changes nothing |
| MacroBench.SplitJoin | benches/macro-benchmark/src/main.rs:21 | Tokens joined by single spaces split back into the same tokens |
| MacroBench.BlankIffWhitespace | benches/macro-benchmark/src/main.rs:21-24 | A line is skipped exactly when it is empty or all whitespace |
| MacroBench.ParseLineSpec | benches/macro-benchmark/src/main.rs:21-28 | On the whitespace tokens of the line as read: no token means the line is skipped. A second token that is not a usize is the unwrap panic with from_str's error. Otherwise the record is the first token, the second as usize (0 when absent) and the third ("" when absent) |
| MacroBench.ParsedWordIsToken | benches/macro-benchmark/src/main.rs:21-26 | The word of a record is a non-empty token without whitespace |
| MacroBench.ParseUsizeSpec | benches/macro-benchmark/src/main.rs:27 | usize::from_str accepts exactly the non-empty digit strings whose value fits 64 bits, optionally after one '+', and yields that value |
| MacroBench.ParseShowNat | benches/macro-benchmark/src/main.rs:27 | Every usize written in decimal parses back to itself |
| MacroBench.ParseFormatLine | benches/macro-benchmark/src/main.rs:26-28 | A record written as "word freq [tag]\n" parses back to the same record |
| MacroBench.WordAloneGetsDefaults | benches/macro-benchmark/src/main.rs:26-28 | A word alone on its line gets frequency 0 and the empty tag |
| MacroBench.ExtraTokensIgnored | benches/macro-benchmark/src/main.rs:26-28 | Tokens after the third do not change the record |
| MacroBench.BadFrequencyIsMalformed | benches/macro-benchmark/src/main.rs:27 | A second token that is not a usize makes the line the unwrap panic, with from_str's error kind |
| MacroBench.CarriedBlankHarmless | benches/macro-benchmark/src/main.rs:19-32 | A skipped line left in the buffer does not change how the next line parses |
| MacroBench.ReadStep | benches/macro-benchmark/src/main.rs:19-32 | One turn of the read_line loop, with skipped whitespace still in the buffer, contributes exactly the line's outcome in front of the rest of the file |
| MacroBench.ReadRecords | benches/macro-benchmark/src/main.rs:19-33 | The read_line loop yields ParseAll(lines): the records of the non-blank lines up to the end of the file, in order, or the first bad frequency's error |
| MacroBench.ParseAllWords | benches/macro-benchmark/src/main.rs:19-35 | The loop collects at most one record per line, and every word it collects (the keys later built and searched) is a non-empty token without whitespace |
| MacroBench.BlankLinesSkipped | benches/macro-benchmark/src/main.rs:19-24 | A blank line inserted anywhere before the end of the file changes nothing |
| MacroBench.ParseFormatAll | benches/macro-benchmark/src/main.rs:19-33 | A dictionary written as one canonical line per record reads back as its records |
| MacroBench.AsI32 | benches/macro-benchmark/src/main.rs:36 | `k as i32` keeps the low 32 bits of k as two's complement: the result is in the i32 range and congruent to k modulo 2^32, so it is exactly k below 2^31 |
| MacroBench.KeyValues | benches/macro-benchmark/src/main.rs:35-36 | The keys are the records' words in input order (the same words query searches). The i-th value is i wrapped to i32, and exactly i up to 2^31 records |
| MacroBench.KeyValuesDistinct | benches/macro-benchmark/src/main.rs:35-36 | Up to 2^31 records, no two words get the same value |
| MacroBench.Build | benches/macro-benchmark/src/main.rs:15-44 | build yields KeyValues of the parsed records when the file parses, and the parse error otherwise |
| MacroBench.Query | benches/macro-benchmark/src/main.rs:47-77 | query searches exactly the parsed words, once each, in input order, or stops with the parse error |
| MacroBench.SearchAll | benches/macro-benchmark/src/main.rs:71-73 | The search loop visits every key once, in order. It records only which keys are searched, not the search results |

## Left out

- Timing and the floating-point elapsed and per-key figures (`gettimeofday`, `time::Instant`, `println!`, `fprintf`) are left out. They are clocks, floats and output.
- File and process I/O is not modelled. This covers `open`, `lseek`, `close`, `read_data`, `File::open`, `BufReader` and `main`'s argument handling. Input is given as chunks (C++) or lines (Rust).
- A `read` that returns -1 is not modelled: the chunk model only returns 0 or more bytes. I/O errors and invalid UTF-8 from `read_line` are not modelled either.
- The external `cedar::da` (`update`, `exactMatchSearch`) is a map from keys to values, passed by value rather than through a pointer. `Cedar::build` and `exact_match_search` in the Rust benchmark are not part of this model, because their bodies are not in `src/lib.rs`. `Build` returns the pairs it would hand to `Cedar::build`, and `Query` returns the words it would search.
- Heap allocation and release (`new`/`delete`, `create`/`destroy`, `Vec::with_capacity`) are not modelled.
- The Criterion benchmarks `benches/cedarwood_benchmark.rs` and `benches/cedar_benchmark.rs` have no logic of their own and are left out.
- BenchCedar.Insert: the `int` counter `n` is unbounded. Its 32-bit overflow after 2^31 keys is not modelled.
- BenchCedar.Lookup: it requires a buffer that is empty or ends in `'\n'`. On any other buffer, `find_sep` runs past the end, which is undefined behaviour in C++.
- BenchCedar.FindSep: it requires a `'\n'` at or after `p`, for the same reason.
- BenchCedar.InsertKey and BenchCedar.ExactMatchSearch have no contract of their own. They are the map update and the map search that stand in for `cedar::da`. How they relate is stated by `SearchAfterUpdate`, and their effect over many keys by `InsertKeysAppend` and `LastOccurrenceWins`.
- BenchCedar.LookupKey has no row of its own, because its contract only unfolds the map search. What `lookup_key` promises is stated by `FoundIffInserted` and `HitsAreInsertedKeys`.
- MacroBench.Trim, MacroBench.SplitWhitespace, MacroBench.ParseUsize, MacroBench.ParseParts, MacroBench.ParseLine, MacroBench.ParseAll and MacroBench.Words have no rows of their own because they only compute. What they mean is stated by the lemmas about them: `TrimThenSplit`, `SplitRun`, `SplitLastRun`, `SplitTokens`, `ParseUsizeSpec`, `ParseLineSpec`, `ParseAllWords`, `ReadRecords` and `KeyValues`.
- MacroBench.ParseUsize assumes a 64-bit `usize`.
- MacroBench.IsWhitespace models `char::is_whitespace` by the code point ranges of the Unicode White_Space property. It is not derived from a Unicode table.
- `lookup` in `benches/cpp/bench_cedar.cc:76-79` needs the query buffer to end in `'\n'`. A last key without one makes `find_sep` run past the buffer.
- `lookup` writes `'\0'` over every `'\n'` of the query buffer.
- In `insert`, a run of `BUFFER_SIZE - 1` = 65535 bytes without `'\n'` silently ends insertion (`FullCarryEndsInsertion`). Once the carried tail fills those 65535 bytes, the next read asks for 0 bytes and returns 0. A single 65535-byte line, although shorter than the 65536-byte buffer, already stops insertion this way.
