# ethPrice DAG core, modelled in Dafny

`dags/example_dag.py` is an Airflow DAG. It pulls the last ten one-minute
ETH/USDT candles from three exchanges (binance, kucoin, okx). It merges them
into one time-aligned series and asks an OpenAI assistant three times, for a
comparison table, an analysis and a report. This project models the four
pieces of logic inside that glue and proves what they promise:

- **Minute key** (`MinuteKey`, `iso_timestamp`). The key of an
  epoch-millisecond timestamp is its UTC minute. The model keeps the minute
  as an integer (whole minutes since the epoch). The ISO-8601 string the code
  renders is an injective, order-preserving rendering of that integer.
- **Candle normalisation** (`Candles`, `fetch_candles`). The rows the exchange
  returned are an input. The loop visits the Python slice starting at
  `-limit`, unpacks each row into six values and stores
  `{open, high, low, close, volume}` under the row's minute, so a later row of
  the same minute overwrites an earlier one. A row with the wrong number of
  values makes the unpacking raise `ValueError`; the model returns that as a
  `Failure` carrying the arity of the first such row. The numeric fields are a
  type parameter: they are copied and never computed on.
- **Multi-exchange merge** (`Merge`, the merge in `load_info`). The sorted
  union of all exchanges' minute keys, each with a row that has one slot per
  configured exchange holding its candle or `None`.
- **Run polling and reply extraction** (`Assistant`, `ask_agent`). The backend
  is given as the sequence of statuses it reports (creation first, then one
  per `retrieve`) and the message list, newest first.

The files are `results.dfy` (Option and Result), `minute_key.dfy`,
`candles.dfy`, `merge.dfy` and `assistant.dfy`, one module each.

Behaviour of the code that the model keeps:

- The loop visits `ohlcv[-limit:]`. Since `ohlcv[-0:]` is the whole list,
  `limit == 0` keeps every row, and a negative limit drops the first
  `-limit` rows. `Candles.Window` models the slice for every integer limit.
- Indexing `msg.content[0]` raises `IndexError` when the newest assistant
  message has no content block; the model returns `NoContentBlock`.

## Model

| member | source | states |
|---|---|---|
| `MinuteKey.IsoTimestamp` | dags/example_dag.py:38-43 | the key is the minute containing the instant: its start is at or before the instant and less than a minute before it |
| `MinuteKey.InMinuteHasKey` | dags/example_dag.py:38-43 | every instant inside minute `m` has key `m`, whatever its seconds and sub-second offset |
| `MinuteKey.SameMinuteSameKey` | dags/example_dag.py:38-43 | two instants have the same key if and only if they lie in the same minute |
| `MinuteKey.TruncationIdempotent` | dags/example_dag.py:38-43 | canonicalising the start of an instant's minute gives that instant's key again |
| `MinuteKey.KeyMonotone` | dags/example_dag.py:38-43 | a later instant never has an earlier key |
| `Candles.SliceFrom` | dags/example_dag.py:49 | Python's slice from `start`: a suffix of the input; a non-negative start drops `min(start, n)` leading elements, a negative start keeps the last `min(-start, n)` |
| `Candles.Window` | dags/example_dag.py:49 | the visited rows are a suffix of the fetched rows: the last `min(limit, n)` rows for a positive limit, every row for limit 0, all but the first `-limit` rows for a negative limit |
| `Candles.Normalize` | dags/example_dag.py:48-56 | the dictionary the loop builds: at most one key per visited row, and the last visited row's candle is stored under its minute |
| `Candles.NormalizeKeys` | dags/example_dag.py:49-56 | the dictionary's keys are exactly the minutes of the visited rows |
| `Candles.NormalizeLastWins` | dags/example_dag.py:49-56 | a row with no later row of the same minute has its candle stored under its minute |
| `Candles.NormalizeValue` | dags/example_dag.py:49-56 | every stored record is the candle of the last visited row of its minute |
| `Candles.FetchCandles` | dags/example_dag.py:46-57 | fails if and only if a visited row has the wrong arity, carrying the arity of the first such row; otherwise returns the last-writer-wins dictionary of the window, whose keys are the window's minutes and whose size is at most `min(limit, n)` for a positive limit and at most `n` always |
| `Merge.Get` | dags/example_dag.py:130 | `dict.get`: `None` exactly when the minute is not a key, otherwise the stored candle unchanged |
| `Merge.KeyUnion` | dags/example_dag.py:126 | a minute is in the union if and only if it is in one of the key sets |
| `Merge.Timestamps` | dags/example_dag.py:126 | the key union contains every configured exchange's minutes |
| `Merge.TimestampsComplete` | dags/example_dag.py:126 | a minute is in the key union if and only if some configured exchange has a candle for it |
| `Merge.KeyUnionOrderIndependent` | dags/example_dag.py:126 | any rearrangement of the key sets has the same union |
| `Merge.TimestampsOrderIndependent` | dags/example_dag.py:120-126 | listing the same exchanges in another order gives the same key union |
| `Merge.RowFor` | dags/example_dag.py:129-131 | a row has exactly one slot per configured exchange, in configuration order; a slot holds that exchange's candle unchanged when it has one for the minute, and `None` otherwise |
| `Merge.ConfiguredRows` | dags/example_dag.py:18-22 | with the configured exchanges, every row has exactly three slots, binance, kucoin and okx, in that order |
| `Merge.MergeSeries` | dags/example_dag.py:124-131 | the merged series lists each minute of the key union exactly once and nothing else, in strictly increasing order, and each entry's row is the row of slots for its minute |
| `Merge.IncreasingDeterminedByKeys` | dags/example_dag.py:126 | two strictly increasing minute sequences with the same elements are equal, so the sorted key sequence is unique |
| `Merge.OrderedSeriesUnique` | dags/example_dag.py:126-131 | two ordered series that list exactly the same key set have the same minutes at every position |
| `Merge.MergeOrderIndependent` | dags/example_dag.py:124-131 | two merges over the same exchanges listed in different orders agree on the minutes, their order, and every exchange's slot at every minute |
| `Assistant.FirstTerminal` | dags/example_dag.py:85-90 | the index of the first terminal status: it is terminal and every earlier status is not |
| `Assistant.PollRun` | dags/example_dag.py:85-90 | polling stops at the first terminal status, and the number of `retrieve` calls is its index (zero when the creation status is terminal) |
| `Assistant.Reply` | dags/example_dag.py:99-103 | the scan never raises the run-status error, and a successful reply is the stripped first content block of some assistant message |
| `Assistant.ReplyFromNewestAssistant` | dags/example_dag.py:99-101 | the reply comes from the newest assistant message: its first content block, stripped, or the indexing error when it has none |
| `Assistant.ReplyNotFound` | dags/example_dag.py:99-103 | "response not found" is raised if and only if no message has the assistant role |
| `Assistant.FindReply` | dags/example_dag.py:99-103 | the scan returns the reply the newest-first list gives |
| `Assistant.AskAgent` | dags/example_dag.py:85-103 | makes as many `retrieve` calls as the index of the first terminal status; raises with that status unless it is "completed"; otherwise returns the reply from the messages |
| `Assistant.PollsUntilCompleted` | dags/example_dag.py:85-101 | statuses queued, in_progress, in_progress, completed: three `retrieve` calls, then the reply "X" (stripped) from the newest assistant message |
| `Assistant.PollsUntilFailed` | dags/example_dag.py:85-93 | statuses queued, failed: one `retrieve` call, then the error carrying "failed" |
| `Assistant.NewestAssistantWins` | dags/example_dag.py:99-101 | of assistant messages "X" (newer) and "Y" (older) behind a user message, the reply is "X" |

## Left out

- Airflow: the DAG object, the `@task` decorators, the `>>` dependency wiring and the default placeholder arguments of the three prompt tasks (lines 106-113, 136-176). These are framework scheduling and fixed prompt text.
- OpenAI calls: creating the assistant, the thread, the user message and the run, `retrieve` and `list` (lines 17, 60-83, 87-90, 95-98). They are network calls; their answers are the inputs `statuses` and `messages`.
- `ccxt`: building the exchange clients and `fetch_ohlcv` (lines 9, 18-22, 47, 115-117). The rows fetched are the input `ohlcv`. The per-exchange dictionary built at lines 120-122 is the input `per` of `Merge.MergeSeries`.
- `time.sleep(2)` between polls (line 86): a delay with no logical content.
- `save_markdown` and `ART_DIR.mkdir` (lines 23-24, 33-36): file-system I/O. It writes the reply followed by one newline.
- `json.dumps` of the merged series (line 133): a library serialiser.
- `iso_timestamp`'s float division by 1000 and the `datetime` formatting (lines 40-42). The model uses the integer minute `ms / 60000` (floor division), not float rounding or the ISO text. `Merge.MergeSeries` orders keys by that integer, which is the order of the ISO strings for every instant `datetime` can represent (years 1 to 9999). Outside that range `fromtimestamp` raises `OverflowError` or `ValueError`, while `MinuteKey.IsoTimestamp` returns a minute for every integer.
- `str.strip()` (line 101) is a function parameter `strip`, not a model of whitespace rules.
- A message content block that is not text (line 101 reads `.text.value`) is not modelled: content blocks are their text.
- A raw row is a timestamp followed by the other values, so a row with no values at all cannot be written down. Rows whose timestamp is not an integer are not modelled.
- `sorted()` (line 126) is not re-implemented. The merge loop takes the least minute not yet emitted each time, which visits the keys in the same order.
- `Merge.MergeSeries` requires the configured names to be distinct and each to have a dictionary, as they are when `per_exchange` is built from `EXCHANGE_CLASSES`.
- `Assistant.PollRun` and `Assistant.AskAgent` require some status to be terminal. The loop has no deadline, so the code does not terminate on a backend that never finishes.
