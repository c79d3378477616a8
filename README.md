# Torrent backend test harness: the modellable core

The repository is an end-to-end test harness for a torrent management
backend (`backend_test.py`). Almost all of it drives a remote server over
HTTP and WebSocket. This project models the parts that are plain logic:

- **Bencode** (`bencode.dfy`, with decimal text in `bytes.dfy`): the
  `bencode` function nested in `create_test_torrent_file`. It serialises
  integers, byte strings, lists and dictionaries as the "bencoding" section
  of BEP 3 (The BitTorrent Protocol Specification) prescribes: dictionary
  keys are written in ascending raw-byte order. The model has a pure
  `Encode` and a loop-based `EncodeWithLoops`, which mirrors the source's
  `result +=` loops and is proved equal to `Encode`.
- **The test torrent** (`fixture.dfy`): the metainfo dictionary the
  harness builds. It has an `announce` URL and an `info` dictionary with
  `name`, `length`, `piece length` and `pieces`. The model proves the exact
  bytes its encoding produces. The SHA-1 digest of the content is a
  parameter.
- **Backend URL** (`urls.dfy`):
  - `get_backend_url` scans the lines of the frontend `.env` file. It takes
    the value of the first `REACT_APP_BACKEND_URL=` line, stripped of
    whitespace. Without such a line it returns `http://localhost:8001`.
  - `API_BASE` appends `/api` to the backend URL.
  - The WebSocket test builds its URL from `API_BASE + "/ws"`. It rewrites
    `https://` to `wss://`, then `http://` to `ws://`.
  - Python's `str.strip`, `str.startswith`, `str.split('=', 1)` and
    `str.replace` are modelled as the rewrite and lookup use them.
- **Tally and exit code** (`summary.dfy`):
  - `run_all_tests` records one boolean per test. A test that raises an
    `Exception` records `False`.
  - It counts the passes and reports success exactly when every test
    passed.
  - `main` and the script entry point turn that verdict into the process
    exit status.

## Model

| member | source | states |
|---|---|---|
| Bytes.NatText | backend_test.py:73-76 | `str(n)` for `n >= 0`: non-empty, all digits, no leading zero, the digits denote `n`, and the length is the number of decimal digits of `n` |
| Bytes.IntText | backend_test.py:73-74 | `str(n)`: starts with `-` exactly when `n < 0`, the digits (after the sign, if any) have no leading zero, and the text denotes `n` |
| Bencode.KeyLess | backend_test.py:79 | Python's `<` on `bytes`; characterised as a strict total order by `KeyLessIrreflexive`, `KeyLessTransitive` and `KeyLessTotal` |
| Bencode.KeyLessIrreflexive | backend_test.py:79 | no byte string sorts before itself under Python's `bytes` order |
| Bencode.KeyLessTransitive | backend_test.py:79 | Python's `bytes` order is transitive |
| Bencode.KeyLessTotal | backend_test.py:79 | of two distinct byte strings, one sorts before the other |
| Bencode.InsertSorted | backend_test.py:79 | inserting a key into a sorted key list keeps it sorted |
| Bencode.SortKeys | backend_test.py:79 | `sorted(keys)` is in ascending order and is a permutation of the keys |
| Bencode.SortedUnique | backend_test.py:79 | two sorted permutations of the same keys are equal, so the sorted order does not depend on the input order |
| Bencode.Lookup | backend_test.py:80 | `obj[key]` finds an entry carrying that key, and no earlier entry carries it |
| Bencode.LookupAt | backend_test.py:80 | in a dict without repeated keys, looking up entry `i`'s key finds entry `i` |
| Bencode.EntryEncoding | backend_test.py:80 | each key's encoding is followed by the encoding of its own value |
| Bencode.EncodedKeyOrder | backend_test.py:79 | the keys the encoder walks are exactly the dict's keys |
| Bencode.Encode | backend_test.py:72-88 | `bencode(obj)`; characterised case by case by `IntEncoding`, `StrEncoding`, `ListEncodingAt`, `DictEncodingAt`, `EncodingKind`, `EmptyContainers`, `DictOrderIndependent` and `SameEncode` |
| Bencode.EncodeBytes | backend_test.py:75-76 | the byte-string case, also used for every key; characterised by `StrEncoding` |
| Bencode.EncodeItems | backend_test.py:84-86 | the list loop's output; characterised by `EncodeItemsAppend`, `ListEncodingAt` and `ListLoopStep` |
| Bencode.EncodeEntries | backend_test.py:79-80 | the dict loop's output over the sorted keys; characterised by `EncodeEntriesAppend`, `DictEncodingAt` and `DictLoopStep` |
| Bencode.EncodeEntry | backend_test.py:80 | `bencode(key) + bencode(obj[key])`; characterised by `EntryEncoding` |
| Bencode.IntEncoding | backend_test.py:73-74 | an integer encodes to `i`, its signed decimal text, `e`; the text denotes the integer and has `-` exactly for negatives |
| Bencode.StrEncoding | backend_test.py:75-76 | a byte string encodes to its length in decimal, `:`, then the bytes verbatim; the encoded length is digits + 1 + length |
| Bencode.EncodingKind | backend_test.py:72-88 | the first byte tells the kind (`i`, `l`, `d` or a digit); every kind except byte strings ends in `e` |
| Bencode.ListEncodingAt | backend_test.py:83-88 | a list encodes to `l`, then each item's encoding in the list's order, then `e` |
| Bencode.EncodeItemsAppend | backend_test.py:84-86 | the list loop's output for `a + b` is its output for `a` followed by its output for `b` |
| Bencode.EncodeEntriesAppend | backend_test.py:79-80 | the dict loop's output over keys `a + b` is its output over `a` followed by its output over `b` |
| Bencode.SortedKeysAscending | backend_test.py:79 | with distinct keys, every key is written once, in strictly ascending byte order |
| Bencode.KeysOccurOnce | backend_test.py:79 | in a dict without repeated keys, each key occurs once among the keys |
| Bencode.DictEncodingAt | backend_test.py:77-82 | a dict encodes to `d`, then each key in ascending order directly followed by its own value, then `e` |
| Bencode.DictOrderIndependent | backend_test.py:77-82 | two dicts holding exactly the same entries encode identically, whatever order they were inserted in; `SameEncode` extends this to every depth |
| Bencode.SameReflexive | backend_test.py:72-88 | every value without repeated keys is `Same` as itself, so `Same` is Python's `==` on the values the encoder accepts |
| Bencode.SameEncode | backend_test.py:72-88 | values Python compares equal (dicts matched by key set and values, at every depth, whatever their insertion order) encode identically, because keys are sorted on every recursive call |
| Bencode.SameItems | backend_test.py:84-87 | lists whose items are pairwise `Same` give the same list-loop output |
| Bencode.SameEntries | backend_test.py:77-82 | two dicts whose values are `Same` key by key give the same dict-loop output for any key order |
| Bencode.EmptyContainers | backend_test.py:77-88 | an empty list encodes to `le` and an empty dict to `de` |
| Bencode.DictLoopStep | backend_test.py:79-80 | one round of the dict loop appends the next key and its value to the partial result |
| Bencode.ListLoopStep | backend_test.py:84-86 | one round of the list loop appends the next item's encoding to the partial result |
| Bencode.EncodeWithLoops | backend_test.py:72-88 | the step-by-step encoder produces exactly `Encode(v)` |
| Bencode.EncodeDictWithLoop | backend_test.py:77-82 | the dict loop, from `d` to the final `e`, produces exactly the dict's encoding |
| Bencode.EncodeListWithLoop | backend_test.py:83-88 | the list loop, from `l` to the final `e`, produces exactly the list's encoding |
| TorrentFixture.InfoEntries | backend_test.py:63-68 | the `info` dictionary in insertion order; its encoding is fixed by `InfoKeyOrder` and `InfoEncoding` |
| TorrentFixture.Metainfo | backend_test.py:61-69 | `torrent_dict`; its encoding is fixed by `MetainfoKeyOrder` and `MetainfoEncoding` |
| TorrentFixture.MetainfoWellFormed | backend_test.py:61-69 | neither dictionary of the test torrent repeats a key |
| TorrentFixture.MetainfoKeyOrder | backend_test.py:61-69 | in the encoded torrent, `announce` comes before `info` |
| TorrentFixture.InfoKeyOrder | backend_test.py:63-68 | inside `info`, the keys are written as `length`, `name`, `piece length`, `pieces`, not in insertion order |
| TorrentFixture.PieceKeysOrdered | backend_test.py:66-67 | `piece length` sorts before `pieces` |
| TorrentFixture.PieceLengthText | backend_test.py:55 | the piece length 32768 is written as `32768` |
| TorrentFixture.LengthEntry | backend_test.py:65 | the `length` entry encodes to `6:length` then `i40e`, the byte length of the test content |
| TorrentFixture.NameEntry | backend_test.py:64 | the `name` entry encodes to `4:name` then `13:test-file.txt` |
| TorrentFixture.PieceLengthEntry | backend_test.py:66 | the `piece length` entry encodes to `12:piece length` then `i32768e` |
| TorrentFixture.PiecesEntry | backend_test.py:67 | the `pieces` entry encodes to `6:pieces` then `20:` and the 20-byte digest verbatim |
| TorrentFixture.InfoStructure | backend_test.py:63-68 | the encoded `info` is `d`, the four entries in ascending key order, `e` |
| TorrentFixture.InfoEncoding | backend_test.py:54-69 | the exact bytes of the encoded `info` dictionary, token by token |
| TorrentFixture.AnnounceEntry | backend_test.py:62 | the `announce` entry encodes to `8:announce`, `40:` and the tracker URL |
| TorrentFixture.InfoEntry | backend_test.py:63 | the `info` entry encodes to `4:info` then the encoded `info` dictionary |
| TorrentFixture.MetainfoStructure | backend_test.py:61-69 | the encoded torrent is `d`, the `announce` entry, the `info` entry, `e` |
| TorrentFixture.MetainfoEncoding | backend_test.py:61-90 | the exact bytes `create_test_torrent_file` returns, around the encoded `info` dictionary |
| Urls.StartsWith | backend_test.py:24 | `line.startswith(prefix)`; used by `BackendUrlFirstMatch` and `BackendUrlDefault` |
| Urls.Strip | backend_test.py:25 | `str.strip()`; characterised by `StripPadded` and `StripResult` |
| Urls.AfterFirst | backend_test.py:25 | `split('=', 1)[1]`; characterised on matching lines by `ValueAfterPrefix` |
| Urls.TrimStart | backend_test.py:25 | the leading part of `strip`: removes a prefix made only of whitespace, and what remains does not start with whitespace |
| Urls.TrimEnd | backend_test.py:25 | the trailing part of `strip`: removes a suffix made only of whitespace, and what remains does not end with whitespace |
| Urls.StripPadded | backend_test.py:25 | stripping whitespace padding off a text that neither starts nor ends with whitespace gives back that text |
| Urls.StripResult | backend_test.py:25 | a stripped value has no whitespace at either end, and is empty exactly when the input was all whitespace |
| Urls.FirstIndex | backend_test.py:25 | where `split('=', 1)` splits: the first `=` in the line |
| Urls.PrefixHasEquals | backend_test.py:24-25 | a line starting with `REACT_APP_BACKEND_URL=` has its first `=` at the prefix's last character |
| Urls.ValueAfterPrefix | backend_test.py:24-25 | `split('=', 1)[1]` of a matching line is the line with the prefix removed, even when the value contains `=` |
| Urls.BackendUrlFirstMatch | backend_test.py:23-25 | the first matching line decides the URL: its value after the prefix, stripped |
| Urls.BackendUrlDefault | backend_test.py:26 | without a matching line the URL is `http://localhost:8001` |
| Urls.BackendUrl | backend_test.py:19-26 | `get_backend_url` over the file's lines; characterised by `BackendUrlFirstMatch` and `BackendUrlDefault` |
| Urls.GetBackendUrl | backend_test.py:19-26 | the line scan with early return yields exactly `BackendUrl(lines)` |
| Urls.ApiBase | backend_test.py:29 | `API_BASE` starts with the backend URL and continues with exactly `/api` |
| Urls.Replace | backend_test.py:158 | `str.replace` leaves a text without the pattern unchanged |
| Urls.WsUrl | backend_test.py:158 | the WebSocket URL from `API_BASE`; characterised by `WsUrlHttpsAny`, `WsUrlHttpAny`, `WsUrlHttps`, `WsUrlHttp` and `DefaultWsUrl` |
| Urls.ReplaceSkip | backend_test.py:158 | `str.replace` copies a stretch that cannot start the pattern unchanged |
| Urls.ReplaceFront | backend_test.py:158 | `str.replace` rewrites a pattern at the front and continues after it |
| Urls.HttpIsNotHttps | backend_test.py:158 | the `https://` rewrite leaves an `http://` URL alone |
| Urls.WsUrlHttpsAny | backend_test.py:158 | for every `https://` backend, the WebSocket URL is `wss://` followed by the rest of `API_BASE + "/ws"` after both rewrites |
| Urls.WsUrlHttpAny | backend_test.py:158 | for every `http://` backend, the WebSocket URL is `ws://` followed by the rest of `API_BASE + "/ws"` after both rewrites |
| Urls.WsUrlHttps | backend_test.py:158 | when the rest of the URL plus `/api/ws` contains neither `https://` nor `http://`, an `https://` backend yields exactly `wss://`, the rest, `/api/ws` |
| Urls.WsUrlHttp | backend_test.py:158 | when the rest of the URL plus `/api/ws` contains neither `https://` nor `http://`, an `http://` backend yields exactly `ws://`, the rest, `/api/ws` |
| Urls.DefaultWsUrl | backend_test.py:158 | with the default backend, the WebSocket URL is `ws://localhost:8001/api/ws` |
| Urls.NoSchemeIn | backend_test.py:158 | a text in which no `h` is followed by `t` contains neither scheme, so the rewrite leaves it alone |
| Summary.Outcome | backend_test.py:339-348 | what awaiting one test gave: its boolean, or an `Exception`; read by `Recorded` |
| Summary.Recorded | backend_test.py:339-348 | a test's recorded result is true exactly when it returned true; raising an `Exception` records false |
| Summary.Results | backend_test.py:338-348 | `results` holds one entry per test, in order, with that test's recorded result |
| Summary.CountPassed | backend_test.py:360 | `passed` is at most the number of results; if it equals that number, every result is true |
| Summary.AllTrueCountsAll | backend_test.py:360 | if every result is true, `passed` equals the number of results |
| Summary.AllPassedIff | backend_test.py:360-369 | `passed == total` exactly when every recorded result is true |
| Summary.SuccessIff | backend_test.py:336-374 | a run succeeds exactly when every test returned true; a false result or an `Exception` fails it |
| Summary.ResultsSnoc | backend_test.py:341 | recording one more test appends one entry to `results` |
| Summary.RecordResults | backend_test.py:338-348 | the recording loop yields exactly `Results(names, outcomes)` |
| Summary.CountTrue | backend_test.py:360 | the count equals `CountPassed(results)` |
| Summary.RunAllTests | backend_test.py:336-374 | records the results, counts the passes, and reports success exactly when `passed == total` |
| Summary.ExitCode | backend_test.py:380 | `main` returns 0 exactly on success, otherwise 1 |
| Summary.ExitStatus | backend_test.py:382-391 | the process exits with 0 exactly when `main` completed with success; an interrupt or an unexpected error exits with 1 |
| Summary.RunMain | backend_test.py:376-380 | `main` returns 0 exactly when every test returned true |

## Left out

- Network I/O and concurrency are not modelled. This covers the HTTP and WebSocket calls in every `test_*` method, response status and JSON handling, timeouts and `asyncio.sleep`. Each test's effect enters the model only as an `Outcome` input.
- Console output is not modelled: every `print`, the emoji, and the float formatting of progress and rates.
- `hashlib.sha1` is a foreign call, so the `pieces` digest is a parameter. `InfoEncoding` and `MetainfoEncoding` take any 20-byte value.
- Reading `/app/frontend/.env` is not modelled, including the existence check and `open`. The file's lines are an input. Text-mode newline translation is assumed to have happened already, so a line may still end in `\n`, which `strip` removes.
- Encoder inputs outside the four kinds are not modelled. In Python, `bool` values would go through the integer case, non-bytes dictionary keys are not rejected, and unsupported types return `None`. `BValue` admits only integers, byte strings, lists and dictionaries with byte-string keys.
- No decoder is modelled, because the source has none. The partner of each encoder case is a reference reading instead: `DigitsValue` and `SignedValue` read decimal text back, and the position lemmas locate each item.
- `Bencode.Encode` writes a dictionary key through `EncodeBytes`, the byte-string case. This is the same bytes `bencode(key)` produces, because keys are `bytes`.
- `Summary.RunAllTests`: `results` is a sequence of name/result pairs. With a repeated test name, Python's `dict` would keep one entry per name. The harness's seven names are distinct.
- Bytes.IntText: does not model CPython's limit on converting integers to decimal text (4300 digits by default). Beyond it `f"i{obj}e"` raises `ValueError`; the model returns the text for every integer. The harness only encodes 40 and 32768.
- Bencode.Encode: does not model CPython's recursion limit (`sys.getrecursionlimit()`, 1000 by default). `bencode` calls itself once per nesting level, so a value nested about 1000 levels deep raises `RecursionError`. `Encode` and `EncodeWithLoops` return bytes at every depth. The harness's own value nests only two levels deep.
- Bencode.IntEncoding: states the `i…e` form for every integer, so it shares the 4300-digit limit left out for `Bytes.IntText`.
- Summary.Outcome: a test that raises something other than an `Exception` is not an outcome. A `KeyboardInterrupt` or `asyncio.CancelledError` records nothing and stops the loop. The model sends that case to `ExitStatus(Interrupted)` or `ExitStatus(Crashed)`, which exit with 1.
- `Summary.Outcome`: a test's result is a boolean. Python would accept any truthy value there.
- `Urls.Replace`: requires a non-empty pattern. Python's `str.replace` with an empty pattern inserts the replacement between characters, but the source only replaces `https://` and `http://`.
- The torrent session manager, rate limiter, event broadcaster and statistics aggregator are not modelled. The harness only exercises them remotely, and their implementation is not part of this model.
