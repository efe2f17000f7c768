# Rate limiting of the Twitter MCP server, in Dafny

This project models the two pieces of admission and back-off logic in the
Twitter MCP server, and proves what they guarantee:

- `mcp_server/utils.py`, class `RateLimiter`. This is a dual sliding-window limiter.
  - It keeps two deques of admission timestamps:
    - the minute window, which holds at most `rpm_limit` entries;
    - the hour window, which holds at most `rph_limit` entries.
  - `allow_request` first purges stale entries from the front of both windows (`_clean_windows`).
  - It then checks the windows in order: it denies when the minute window is full, then denies when the hour window is full.
  - Otherwise it appends the clock reading to both windows and admits the request.
  - Module `SlidingWindow` models this class as a Dafny `class RateLimiter`:
    - two `seq<real>` fields stand for the deques;
    - a `while` loop pops each window, as in the source.
  - Its methods are proved against the pure step function `Request`. The properties of the limiter are proved about `Request` and about `Run`, which chains `Request` over a sequence of calls.
- `mcp_server/twitter_client.py`, class `TwitterClient`. Two things are modelled:
  - the request counter of `_rate_limit_check`, which pauses on every 100th request;
  - the wait in `_handle_rate_limit`: it gives up when the retry count reaches `max_retries`, and otherwise waits `2**retry_count * 60` seconds.

  Module `Backoff` models these. The counter of `_rate_limit_check` is a field of a Dafny `class TwitterClient`. The wait is the pure function `WaitTime`.

The clock reading `time.time()` is a parameter `now: real` of every call.
The sleeps (`asyncio.sleep`) are not performed. Instead, the model returns
how long to pause and how long to wait.

Nothing in the model requires the clock to be monotone.

- The deque bounds hold for any sequence of readings.
- Sortedness, freshness and the ceilings are stated for non-decreasing readings:
  - sortedness and freshness: entries are at most 60 s or 3600 s old;
  - the ceilings: at most `rpm_limit` admissions in any 60 seconds, and at most `rph_limit` in any 3600 seconds.

Two details of the code's time handling:

- **Exact age limit.** `_clean_windows` removes an entry only when it is strictly older than `now - 60` (`<`, mcp_server/utils.py:45). So an entry exactly 60 s old still counts. `MinuteWindowRecovers` proves this.
- **Future timestamps.** The code does not clamp timestamps later than `now`, and neither does the model.

## Model

| member | source | states |
|---|---|---|
| SlidingWindow.Purge | mcp_server/utils.py:45-49 | popping the front while it is older than the cutoff never lengthens a window |
| SlidingWindow.PurgeRemovesStalePrefix | mcp_server/utils.py:45-49 | purging removes a prefix only: the result is a suffix of the window, every removed entry is strictly older than the cutoff, and the first kept entry is not |
| SlidingWindow.PurgeKeepsExactlyFresh | mcp_server/utils.py:41-49 | on a sorted window an entry is kept if and only if it is at least the cutoff (an entry equal to the cutoff is kept); the result is sorted and every entry is at least the cutoff |
| SlidingWindow.PurgeKeepsAllFresh | mcp_server/utils.py:45-46 | a window with no entry older than the cutoff is left unchanged |
| SlidingWindow.PurgeDropsAllStale | mcp_server/utils.py:45-46 | a window whose entries are all older than the cutoff is emptied |
| SlidingWindow.FreshWindowsKept | mcp_server/utils.py:42-49 | windows whose minute entries all lie in the trailing 60 seconds and whose hour entries all lie in the trailing 3600 seconds are not touched by the clean-up |
| SlidingWindow.Purged | mcp_server/utils.py:40-49 | the clean-up of both windows at one clock reading; neither window grows |
| SlidingWindow.PurgedDropsOnlyStale | mcp_server/utils.py:40-49 | after the clean-up, each window is a suffix of the old one, every removed minute entry is older than `now - 60` and every removed hour entry older than `now - 3600`, and the first kept entry of each is not |
| SlidingWindow.DequeAppend | mcp_server/utils.py:36-37 | appending to a `deque(maxlen)` gives the old contents plus the new entry, minus the leftmost entry when the deque was full; the length grows by one below `maxlen` and otherwise stays at `maxlen` |
| SlidingWindow.Decide | mcp_server/utils.py:28-34 | the minute check comes first: minute denial if and only if the minute window is full; hour denial if and only if the minute window has room and the hour window is full; admission if and only if both have room |
| SlidingWindow.Request | mcp_server/utils.py:23-38 | one call: both windows stay within their limits; the answer is true if and only if both purged windows have room; an admission appends `now` to both purged windows, so no entry is ever evicted by the `maxlen` cap; a denial leaves exactly the purged windows |
| SlidingWindow.RequestKeepsOrder | mcp_server/utils.py:36-49 | when the windows are sorted and the reading is not earlier than their entries, a call leaves both windows sorted, with every minute entry in [now - 60, now] and every hour entry in [now - 3600, now] |
| SlidingWindow.OrderAfterRequest | mcp_server/utils.py:41-49 | the per-window part of RequestKeepsOrder, for a denial (purge only) and for an admission (purge, then append `now`) |
| SlidingWindow.Run | mcp_server/utils.py:23-38 | a sequence of calls keeps both windows within their limits and gives one answer per call |
| SlidingWindow.RunKeepsOrder | mcp_server/utils.py:23-49 | from a fresh limiter and non-empty non-decreasing readings, both windows are sorted and hold only entries of the trailing 60 and 3600 seconds before the last reading |
| SlidingWindow.HistoryAfterRequest | mcp_server/utils.py:23-49 | one call at a reading not before the last keeps each window equal to the recent part of all admissions, with everything dropped older than the window span, and keeps both ceilings |
| SlidingWindow.RunHistory | mcp_server/utils.py:23-49 | from a fresh limiter and non-decreasing readings, each window is a suffix of the admissions that holds every admission of its span, and the admissions keep both ceilings |
| SlidingWindow.AdmittedSorted | mcp_server/utils.py:36-37 | with non-decreasing readings the admitted readings are non-decreasing and none is after the last reading |
| SlidingWindow.RunKeepsMinuteCeiling | mcp_server/utils.py:13-49 | from a fresh limiter and non-decreasing readings, no 60-second span holds more than `rpm_limit` admissions |
| SlidingWindow.RunKeepsHourCeiling | mcp_server/utils.py:13-49 | from a fresh limiter and non-decreasing readings, no 3600-second span holds more than `rph_limit` admissions |
| SlidingWindow.RateLimiter.constructor | mcp_server/utils.py:16-20 | the limits are the arguments (30 and 500 by default) and both windows start empty |
| SlidingWindow.RateLimiter.CleanWindows | mcp_server/utils.py:40-49 | the two popping loops leave exactly the purged windows |
| SlidingWindow.RateLimiter.AllowRequest | mcp_server/utils.py:23-38 | the answer and the new windows are those of `Request` on the old windows, and both windows stay within their deque bounds |
| SlidingWindow.ReplayCalls | mcp_server/utils.py:23-38 | calling a fresh limiter once per reading gives exactly the answers of `Run`, so the ceilings of RunKeepsMinuteCeiling and RunKeepsHourCeiling bound it |
| SlidingWindow.BlocksExcess | mcp_server/test_suite.py:256-263 | with limits 2/min and 5/h, three calls at non-decreasing readings within one minute answer true, true, false |
| SlidingWindow.ExcessSteps | mcp_server/test_suite.py:256-263 | the three steps of that scenario as values: the windows after each call, and the denial of the third |
| SlidingWindow.MinuteWindowRecovers | mcp_server/utils.py:42-46 | with limits 2/min and 100/h and two admissions at t, a call at t + 60 is still denied, and a call strictly after t + 60 is admitted |
| SlidingWindow.HourWindowRecovers | mcp_server/utils.py:32-34 | with limits 100/min and 2/h and two admissions at t, a call at t + 30 is denied by the hour window, and a call strictly after t + 3600 is admitted |
| Backoff.TwitterClient.constructor | mcp_server/twitter_client.py:32 | a new client has issued no request and taken no pause |
| Backoff.TwitterClient.RateLimitCheck | mcp_server/twitter_client.py:123-130 | the counter grows by exactly one; the pause is 2 seconds if and only if the new count is a multiple of 100, and 0 otherwise; the number of pauses is always count / 100 |
| Backoff.QuotientStep | mcp_server/twitter_client.py:128 | one more request completes another hundred exactly when its number is a multiple of 100 |
| Backoff.Pow2 | mcp_server/twitter_client.py:137 | a power of two is at least 1 |
| Backoff.WaitTime | mcp_server/twitter_client.py:132-137 | an error if and only if `retry_count >= max_retries`; otherwise a wait of at least 60 seconds, and exactly 60 seconds for retry 0 |
| Backoff.WaitDoubles | mcp_server/twitter_client.py:137 | each retry below the maximum waits twice as long as the one before |
| Backoff.WaitIncreases | mcp_server/twitter_client.py:137 | the wait strictly increases with the retry count |
| Backoff.DefaultSchedule | mcp_server/twitter_client.py:132-137 | with the default maximum of 3, the waits are 60, 120 and 240 seconds, and retry 3 raises |
| Backoff.HandleOnce | mcp_server/twitter_client.py:176-177 | one `except TooManyRequests` handler with the default maximum: a given-up operation stays given up; a retrying one gives up exactly when the retry count is at least 3, and otherwise adds 60 * 2^retry seconds to its back-off waits |
| Backoff.AsWrittenAfter | mcp_server/twitter_client.py:176-178 | the self-re-entering retry as written: after any number of consecutive TooManyRequests answers the operation is still retrying |
| Backoff.CorrectedAfter | mcp_server/twitter_client.py:176-178 | the retry with the count carried over: the operation has given up if and only if more than 3 consecutive answers arrived |
| Backoff.AsWrittenNeverGivesUp | mcp_server/twitter_client.py:176-178 | as written, after any number n of consecutive TooManyRequests answers, the operation is still retrying, having waited 60 * n seconds in back-off waits |
| Backoff.CorrectedGivesUp | mcp_server/twitter_client.py:176-178 | with the retry count carried over, the operation waits 60, 120 and 240 seconds, then gives up on the fourth answer after 420 seconds of back-off waits in all |

## Left out

- `time.time()` and `asyncio.sleep`: the clock reading is a parameter. The pause and the wait are returned values and are not performed.
- Clock readings are modelled as unbounded real numbers. The rounding of the floats returned by `time.time()` is not modelled.
- Concurrency: `allow_request` is an `async` method. Calls interleaved across tasks are not modelled, so the model covers sequential calls only.
- Logging calls (mcp_server/utils.py:21, 29, 33; mcp_server/twitter_client.py:129, 138).
- Limits below zero: Python's `deque(maxlen=...)` raises `ValueError` for them. The constructor takes natural numbers, so that error path is not modelled.
- Back-off retry counts below zero: Python computes a fractional wait for them. The retry count is a natural number, while `max_retries` is any integer.
- `ErrorHandler.format_error` (mcp_server/utils.py:57-63): it only builds a dictionary from the exception's Python type name and message text. The model has no value for either.
- Every `twikit` call of `TwitterClient`: login, tweets, users, direct messages, trends and media.
- Cookie file handling.
- The rest of `TwitterClient.__init__`. Only the counter is modelled; `_last_request_time` is never read.
- The HTTP layer in mcp_server/mcp_server_main.py. It only turns a denial into a 429 response.
- Test helpers whose implementation is not present: `get_stats`, `categorize_error` and `validate_tweet_text`.
- The recursive retry of `create_tweet` and `search_tweets`: only its effect on the retry count is modelled (see Findings). The HTTP work it repeats is not.
- Each re-entry of `create_tweet` or `search_tweets` first runs `_rate_limit_check` again (mcp_server/twitter_client.py:160, 200). That adds one to the request counter and may pause 2 s on a multiple of 100. `RetryState` does not record that counter bump or pause: its `waited` counts only the back-off waits of `_handle_rate_limit`.
- Recursion depth: each retry of `create_tweet` or `search_tweets` awaits a new call from inside the `except` block, so one more frame stays alive per retry. CPython's recursion limit would eventually raise `RecursionError`; `AsWrittenAfter` counts answers without bound and does not model that limit.
- RunKeepsMinuteCeiling, RunKeepsHourCeiling: the ceilings are proved only for non-decreasing clock readings. Without a clamp, a clock that moves backwards can admit more than the limits in a span, and the source does not guard against that.

## Findings

| source | as written | input that shows it | evidently intended | confidence | as-written member | corrected member |
|---|---|---|---|---|---|---|
| mcp_server/twitter_client.py:176-178 | on `TooManyRequests`, `create_tweet` (and `search_tweets` at mcp_server/twitter_client.py:224-226) calls `_handle_rate_limit()` with the default `retry_count=0` and then restarts itself, so the retry count never grows | Twitter answering `TooManyRequests` to every attempt: the operation waits 60 s before each retry, on and on, and never raises `TooManyRequests` | the retry count grows with each consecutive answer, so the waits are 60, 120 and 240 s, and the fourth answer raises `TooManyRequests("Max retries exceeded")` | not executed | Backoff.AsWrittenNeverGivesUp | Backoff.CorrectedGivesUp |
