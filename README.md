# Talent match: benchmark registry, scoped queries and narrator retry policy

This project models two components of the talent-match dashboard in Dafny.

**Benchmark registry and scoped query layer** (`utils/data_fetch.py`):

- `parse_ids` turns free text into employee ids.
- `upsert_benchmark` appends a job-vacancy benchmark to `config.talent_benchmarks`.
- Five read-only dashboard queries run over the scored fact relation `mart.ai_success_score_operational` and the organisation view `mart.v_employees_org`: the leaderboard, the group (TGV) breakdown, the variable (TV) breakdown, the distribution and the fairness table.
- Every query first resolves its vacancy scope with the same rule. It uses the explicit vacancy id when one is given. Otherwise it uses the vacancy of the newest benchmark.

**AI narrator model fallback** (`utils/ai_narrator.py`):

- `_resolve_models` picks the OpenRouter models to try.
- `_post_openrouter` builds the error messages: non-JSON body, HTTP error and missing API key.
- Each message is classified as rate limited, transient or fatal.
- `_call_with_retry` walks the models in order, with a per-model doubling backoff.

## Layout

| file | content |
|---|---|
| `Wrappers.dfy` | `Option`, used for SQL NULL and for unset environment variables |
| `Seqs.dfy` | filter, map, distinct, take and a stable insertion sort, with their lemmas; they model `where`, `select distinct`/`group by`, `order by` and `limit` |
| `Text.dfy` | the Python string operations the core relies on: `strip`, `split`, `join`, `replace`, `isdigit`, `int`, `str`, `in`, `lower`, and the string order |
| `Aggregates.dfy` | SQL `max` and `avg` over a nullable column |
| `IdParsing.dfy` | `parse_ids` |
| `Registry.dfy` | the benchmark row, the registry class with `Upsert`, and the scope rule |
| `Queries.dfy` | the five `fetch_*` queries as pure functions over fact rows, with their lemmas |
| `Narrator.dfy` | model resolution, error messages, classification, the retry method and the declarative retry policy |

## Modelling choices

**Registry**
- `Upsert` takes the freshly generated vacancy id as a parameter, with a precondition that no row uses it yet. This stands in for `uuid4`.
- `created_at` is the registry's `clock`. The clock advances on every insert, so timestamps strictly increase along the table.

**Scope rule**
- `order by created_at desc limit 1` has no tie-break. `Registry.NewestIndex` breaks ties by taking the row inserted last. A valid registry has no ties anyway.

**Numbers and ordering**
- Rates are `real` and SQL NULL is `None`. `max` and `avg` skip NULLs and return NULL when no value is present. `avg` is the exact sum divided by the count.
- `order by` is a stable insertion sort under a total preorder. Text columns compare by code point.
- The leaderboard's descending order puts NULL final rates first, as PostgreSQL does.
- Ties keep their input order. SQL leaves that order unspecified, so no lemma depends on it.

**HTTP calls**
- The request is an oracle `Call -> Reply`. `oracle(Call(m, a))` is the outcome of attempt `a` on model `m`: the completion text, or the message of the `RuntimeError` raised.
- `time.sleep` is recorded in a ghost log of the seconds slept.
- The raised error is returned as an `Err` result.

**Retry policy**
- `FollowsPolicy` states the retry policy on its own, independently of the loop. `CallWithRetry` is proved to follow it, and the lemmas about the policy then describe every run.

**Behaviours of the code worth knowing**, each proved:
- An HTTP 500 JSON answer without an `error` field is fatal for a model. It is not retried, although the docstring speaks of retrying 5xx errors (`Status500Fatal`). The status alone decides nothing: a 500 whose error text contains "timeout" or "gateway" is transient unless it also matches a rate-limit pattern, and a non-JSON 500 is classified by its body snippet: fatal when the body lacks the characters the patterns need (`NonJson500Fatal`), rate limited when it says "error 429" (`NonJsonRateLimitedByBody`), never fatal when it says "timeout" (`NonJsonTimeoutRetried`).
- A missing API key is fatal for every model, so each model is tried once: the error is fatal (`MissingKeyFatal`), and a fatal error moves on to the next model (`Next`).
- The third rate-limit test never decides anything (`RateLimitThirdTestRedundant`).
- A non-empty `OPENROUTER_MODEL` is used as given, without stripping, so `" "` selects a model named `" "` (`ResolveModels`).
- A CSV list made only of commas and blanks selects no model at all. The loop then makes no request and raises the generic error (`ResolveModelsBlankList`, `PolicyOnExhaustion`).
- A transient error on the last attempt of a model still sleeps before the loop moves on (`Sleeps`, `TryingRetried`).
- A 429 answer whose body is not JSON is not rate limited by its status alone. Its message reads "non-JSON (status 429)", not "error 429", so a body with no `4` and no `-` leaves it not rate limited (`NonJson429NotByStatus`), while a body saying "error 429" makes it rate limited (`NonJsonRateLimitedByBody`). The JSON form is always rate limited (`Status429RateLimited`).

**Where the code and the description of the system differ, the code is followed:**
- The fairness table averages `final_match_rate` over joined fact rows, not over employees. It has no count column.
- The distribution is `select distinct (employee_id, final_match_rate)`. It has one row per employee only when each employee's final rate is constant in scope (`DistributionCount`).
- The scope rule has no secondary sort on `created_at` ties.

## Model

| member | source | states |
|---|---|---|
| IdParsing.ParseIds | utils/data_fetch.py:10-15 | `parse_ids`; its behaviour is stated by the `ParseIds*` lemmas below: `ParseIdsMembers` (which ids), `ParseIdsEmpty` (when none), `ParseIdsConcat` (order), `ParseJoinIds` (round trip) and `ParseIdsIdempotent` |
| IdParsing.ParseIdsIsKeepIds | utils/data_fetch.py:11-15 | the early return for empty text agrees with the general rule: the result is the all-digit tokens of the stripped comma/newline pieces |
| IdParsing.ParseIdsEmpty | utils/data_fetch.py:11-15 | the result is empty iff no stripped piece is all digits; so `""`, `"a,-3,4.5"` and similar give `[]` |
| IdParsing.ParseIdsMembers | utils/data_fetch.py:14-15 | a number is in the result iff some stripped piece is all digits and has that value |
| IdParsing.ParseIdsLength | utils/data_fetch.py:14-15 | never more ids than separator-delimited pieces |
| IdParsing.SeparatorsEquivalent | utils/data_fetch.py:14 | texts that differ only in comma versus newline at each position parse to the same ids |
| IdParsing.ParseIdsPaddedToken | utils/data_fetch.py:14-15 | whitespace around an all-digit token is ignored: the piece gives exactly its value |
| IdParsing.ParseIdsRejectedToken | utils/data_fetch.py:15 | a single piece that is not all digits after stripping gives no id |
| IdParsing.ParseIdsConcat | utils/data_fetch.py:14-15 | the ids of `a + "," + b` are the ids of `a` followed by those of `b`: input order is kept |
| IdParsing.ParseJoinIds | utils/data_fetch.py:14-15 | rendering any id list with commas and parsing it gives the list back |
| IdParsing.ParseIdsIdempotent | utils/data_fetch.py:14-15 | parsing the comma-joined result again changes nothing |
| IdParsing.KeepIds | utils/data_fetch.py:15 | keeping the all-digit tokens never lengthens the list |
| IdParsing.KeepIdsMembers | utils/data_fetch.py:15 | a number is kept iff some token is all digits with that value |
| IdParsing.KeepIdsEmpty | utils/data_fetch.py:15 | nothing is kept iff no token is all digits |
| IdParsing.KeepIdsConcat | utils/data_fetch.py:15 | the comprehension distributes over concatenation of the token list |
| IdParsing.TokensConcat | utils/data_fetch.py:14 | the pieces of `a + "," + b` are the pieces of `a` followed by those of `b` |
| Text.SplitJoin | utils/data_fetch.py:14 | splitting pieces joined by a separator they do not contain gives the pieces back |
| Text.JoinSplit | utils/data_fetch.py:14 | joining the pieces of a split gives the text back |
| Text.SplitConcat | utils/data_fetch.py:14 | `split` distributes over a separator placed between two texts |
| Text.DigitsValueOfNatToString | utils/data_fetch.py:15 | `int(str(n)) == n` for every natural number `n` |
| Text.StripPadded | utils/data_fetch.py:14 | `strip` removes exactly the surrounding whitespace of a text that starts and ends with non-space |
| Registry.NewestIndex | utils/data_fetch.py:44-47 | picks a row whose `created_at` no row exceeds; later rows all have a smaller timestamp |
| Registry.Latest | utils/data_fetch.py:44-47 | no id exactly when the registry is empty; otherwise the id of a row with the greatest `created_at` |
| Registry.ResolveScope | utils/data_fetch.py:43-47 | an explicit id is used verbatim; the scope is NULL iff there is neither an explicit id nor any benchmark |
| Registry.LatestIsLast | utils/data_fetch.py:44-47 | in a chronological registry the newest benchmark is the one appended last |
| Registry.ImplicitScope | utils/data_fetch.py:39-48 | without an explicit id the scope is the newest vacancy, and there is none when the registry is empty |
| Registry.AppendNewest | utils/data_fetch.py:23-33 | appending a row with a fresh id, stamped with the current clock, keeps the table chronological with unique ids |
| Registry.BenchmarkRegistry.Upsert | utils/data_fetch.py:17-35 | appends exactly one row with the given fields and weights unchanged, the fresh id and the current clock; leaves every old row unchanged; returns the inserted id; keeps the registry valid; the new vacancy becomes the implicit scope |
| Aggregates.Present | utils/data_fetch.py:88 | the non-NULL values are exactly the present entries; none iff every entry is NULL |
| Aggregates.PresentCounts | utils/data_fetch.py:88 | each value occurs among the non-NULL values exactly as often as it occurs, non-NULL, in the column, so `avg` sees duplicates with their multiplicity |
| Aggregates.Max | utils/data_fetch.py:56-60 | SQL `max`: NULL iff every entry is NULL, otherwise a present value no smaller than any present value |
| Aggregates.Avg | utils/data_fetch.py:88 | SQL `avg` is NULL iff every entry is NULL |
| Aggregates.AvgBounds | utils/data_fetch.py:88 | an average lies in any interval that holds every present value |
| Aggregates.AvgAtMostMax | utils/data_fetch.py:152 | an average never exceeds the `max` of the same column |
| Aggregates.ConstantColumn | utils/data_fetch.py:152 | when every present value is `v`, `avg` and `max` both give `v` |
| Queries.Scoped | utils/data_fetch.py:62 | the scope join keeps exactly the fact rows of the scope vacancy; a NULL scope keeps none |
| Queries.JoinOrg | utils/data_fetch.py:63 | the inner join holds exactly the pairs of a fact row and an organisation row of the same employee |
| Queries.Matches | utils/data_fetch.py:63 | one fact row joins with exactly the organisation rows of its employee |
| Queries.Leaderboard | utils/data_fetch.py:64-66 | at most `limit` rows, and exactly as many as the smaller of `limit` and the number of groups of in-scope joined rows |
| Queries.LeaderboardSorted | utils/data_fetch.py:65 | ordered by `final_match_rate`, best first, NULLs ahead as in PostgreSQL |
| Queries.LeaderboardRows | utils/data_fetch.py:56-64 | each row stands for a non-empty group of in-scope joined rows with its key; its final rate is the `max` of their final rates, and each of the four pivot columns is the `max` of their group rates for that group name (NULL when none) |
| Queries.LeaderRowMax | utils/data_fetch.py:56-60 | the aggregates of one group are SQL `max` of its final rates and of each pivoted group rate |
| Queries.LeaderboardKeysDistinct | utils/data_fetch.py:64 | no two rows share a group key |
| Queries.LeaderboardComplete | utils/data_fetch.py:61-66 | with a limit no smaller than the number of groups, every group of in-scope joined rows has a row |
| Queries.RankComplete | utils/data_fetch.py:65-66 | a limit no smaller than the number of groups drops no group |
| Queries.RankTop | utils/data_fetch.py:65-66 | `order by ... limit` keeps the best groups: any group left out ranks no higher, in the descending final-rate order, than every row kept |
| Queries.LeaderboardTop | utils/data_fetch.py:56-66 | the leaderboard is a top-`limit` list: the row of any group of in-scope joined rows that is not on the board ranks no higher than every row on it |
| Queries.LeaderRowsMembers | utils/data_fetch.py:64 | a row appears before ordering iff it is the aggregate of an existing group key |
| Queries.FinalDescOrder | utils/data_fetch.py:65 | the descending final-rate order, NULLs first, is a total preorder |
| Queries.CandidateTgv | utils/data_fetch.py:71-97 | `fetch_candidate_tgv`; stated by `CandidateTgvSorted` (order), `CandidateTgvDistinct` (one row per group), `CandidateTgvMembers` (which rows), `CandidateTgvRates` (each rate), `CandidateTgvBounds` and `CandidateTgvEmpty` |
| Queries.CandidateTgvDistinct | utils/data_fetch.py:90-93 | `group by` gives one row per group: no two rows repeat, and no two share employee, directorate, role, grade and group name |
| Queries.CandidateTgvSorted | utils/data_fetch.py:94 | the group breakdown is ordered by group name |
| Queries.CandidateTgvMembers | utils/data_fetch.py:85-93 | a row appears iff it aggregates the group of an in-scope fact row of the employee |
| Queries.CandidateTgvRates | utils/data_fetch.py:86-93 | each row's rate is the mean of the non-NULL TV match rates of the facts with the scope vacancy, the employee, and the row's directorate, role, grade and group name; there is at least one such fact |
| Queries.CandidateTgvBounds | utils/data_fetch.py:88 | when every TV match rate lies in [0, 1], so does every group rate |
| Queries.CandidateTgvEmpty | utils/data_fetch.py:90-93 | the breakdown is empty iff the employee has no fact row in scope |
| Queries.TgvKeysMembers | utils/data_fetch.py:91-93 | a group key is kept iff it belongs to the scope vacancy and some row of the employee has it |
| Queries.TgvRowsMembers | utils/data_fetch.py:91 | a row is produced iff it aggregates one of the group keys |
| Queries.ByTgvNameOrder | utils/data_fetch.py:94 | ordering by group name is a total preorder |
| Queries.CandidateTv | utils/data_fetch.py:99-119 | `fetch_candidate_tv`; stated by `CandidateTvRows` (a sorted permutation of the matching projections) and `CandidateTvMember` (which rows) |
| Queries.CandidateTvRows | utils/data_fetch.py:110-116 | the variable breakdown is a permutation of the projections of the matching in-scope facts, as many rows as those facts, ordered by TV name, and contains exactly those projections |
| Queries.CandidateTvMember | utils/data_fetch.py:112-115 | a row appears iff it is the projection of an in-scope fact of that employee and group |
| Queries.ByTvNameOrder | utils/data_fetch.py:116 | ordering by TV name is a total preorder |
| Queries.Distribution | utils/data_fetch.py:121-137 | `fetch_distribution`; stated by `DistributionRows` (exactly the distinct in-scope pairs) and `DistributionCount` |
| Queries.DistributionRows | utils/data_fetch.py:132-134 | the rows have no duplicates and are exactly the `(employee_id, final_match_rate)` pairs of in-scope facts |
| Queries.DistributionCount | utils/data_fetch.py:132-134 | when each employee's final rate is constant in scope, there are as many rows as distinct in-scope employees |
| Queries.Fairness | utils/data_fetch.py:139-159 | `fetch_fairness`; stated by `FairnessRows` (order, keys, averages, completeness), `FairnessComplete` and `FairnessBounds` |
| Queries.FairnessRows | utils/data_fetch.py:150-157 | ordered by (grade, education, major), one row per key; each row stands for a non-empty group of in-scope joined rows and holds the `avg` of their final rates, taken over rows; every in-scope joined row's group has its row |
| Queries.FairnessComplete | utils/data_fetch.py:150-156 | every (grade, education, major) group of in-scope joined rows has its row in the table |
| Queries.FairnessBounds | utils/data_fetch.py:152 | when every final rate lies in [0, 1], so does every fairness average |
| Queries.ByFairKeyOrder | utils/data_fetch.py:157 | the (grade, education, major) order is a total preorder |
| Queries.NoScopeNoRows | utils/data_fetch.py:39-48 | with no explicit id and an empty registry all five queries return no rows |
| Seqs.Distinct | utils/data_fetch.py:132 | `select distinct`: the same elements, without duplicates |
| Seqs.DistinctMap | utils/data_fetch.py:132 | for a map that is injective on the input, deduplicating before or after mapping agrees |
| Seqs.SortSorted | utils/data_fetch.py:65 | the sort's output is ordered under any total preorder |
| Seqs.Sort | utils/data_fetch.py:65 | the sort's output is a permutation of its input |
| Seqs.Take | utils/data_fetch.py:66 | `limit n` keeps a prefix of `min(n, size)` rows |
| Narrator.ResolveModels | utils/ai_narrator.py:16-26 | a set single model gives exactly `[single]` whatever the list holds; else a set list gives exactly its comma-separated pieces, stripped, with the empty ones dropped, in order, each trimmed; else the three default models |
| Narrator.StrippedEntries | utils/ai_narrator.py:24 | the result is the stripped pieces, in order, with the empty ones dropped; every kept entry is non-empty and trimmed |
| Narrator.StrippedEntriesUnpadded | utils/ai_narrator.py:24 | entries that are already trimmed and non-empty are kept as they are, in order |
| Narrator.StrippedEntriesBlank | utils/ai_narrator.py:24 | blank entries are all dropped |
| Narrator.ResolveModelsList | utils/ai_narrator.py:22-24 | a CSV list of trimmed names without commas resolves to exactly those names, in order |
| Narrator.ResolveModelsBlankList | utils/ai_narrator.py:22-24 | a list of only commas and blanks, such as `",,"`, resolves to no model |
| Narrator.SplitPiecesBlank | utils/ai_narrator.py:24 | the pieces of a text of commas and blanks are blank |
| Narrator.Snippet | utils/ai_narrator.py:56 | `text[:500]`: a prefix of the text, of length exactly the smaller of its length and 500 |
| Narrator.Classify | utils/ai_narrator.py:81-90 | rate limited iff a rate-limit pattern occurs; transient iff no rate-limit pattern but a transient pattern occurs; the rate-limit test wins |
| Narrator.RateLimitThirdTestRedundant | utils/ai_narrator.py:81 | the third rate-limit pattern contains the second, so dropping it changes nothing |
| Narrator.Status429RateLimited | utils/ai_narrator.py:81-83 | every JSON error answer with HTTP status 429 (message of line 61) is rate limited |
| Narrator.NonJsonMessage | utils/ai_narrator.py:57 | the non-JSON error message; stated by `MessagesShowStatus` (the status after a space), `NonJsonHoldsBody`, `NonJsonRateLimitedByBody`, `NonJsonTimeoutRetried`, `NonJson500Fatal` and `NonJson429NotByStatus` |
| Narrator.HttpErrorMessage | utils/ai_narrator.py:59-61 | the HTTP error message; stated by `MessagesShowStatus`, `Status429RateLimited`, `GatewayStatusRetried` and `Status500Fatal` |
| Narrator.NonJsonHoldsBody | utils/ai_narrator.py:56-57 | any text found in the body snippet is found in the non-JSON message |
| Narrator.NonJsonRateLimitedByBody | utils/ai_narrator.py:81-83 | a non-JSON answer whose body snippet says "error 429" is rate limited, whatever its status |
| Narrator.NonJsonTimeoutRetried | utils/ai_narrator.py:85-88 | a non-JSON answer whose body snippet says "timeout" is never fatal, whatever its status |
| Narrator.NonJson500Fatal | utils/ai_narrator.py:89-90 | a non-JSON HTTP 500 answer whose body lacks the characters the patterns need is fatal |
| Narrator.NonJson429NotByStatus | utils/ai_narrator.py:81-83 | a non-JSON HTTP 429 answer whose body holds no `4` and no `-` is not rate limited: the status alone does not make it so |
| Narrator.MessagesShowStatus | utils/ai_narrator.py:57-61 | both the non-JSON and the HTTP error message hold the status code right after a space |
| Narrator.GatewayStatusRetried | utils/ai_narrator.py:85-88 | HTTP 502, 503 and 504 are never fatal, with or without a JSON body |
| Narrator.GatewayCode | utils/ai_narrator.py:85 | the status 502, 503 or 504 written after a space is one of the three transient codes |
| Narrator.RetriedByCode | utils/ai_narrator.py:85-88 | a message holding a gateway code is never fatal |
| Narrator.FatalWhenLacking | utils/ai_narrator.py:81-90 | a message is fatal when, for every pattern, it lacks one of the pattern's characters |
| Narrator.Status500Fatal | utils/ai_narrator.py:89-90 | an HTTP 500 answer without an error field is fatal: the model is not retried |
| Narrator.MissingKeyFatal | utils/ai_narrator.py:31-32 | the error raised when no API key is configured (the constant `MissingKeyMessage`) is classified fatal by lines 89-90 |
| Narrator.Next | utils/ai_narrator.py:74-90 | after a failure, the next request stays on the model exactly when the error is transient and attempts are left, and is then the next attempt; otherwise it is the first attempt on the next model |
| Narrator.Pow2 | utils/ai_narrator.py:73 | the backoff is at least one second |
| Narrator.CallWithRetry | utils/ai_narrator.py:69-94 | the calls made, the result and the sleeps follow the retry policy: first attempt of the first model first, each call after a failure as `Next` says, at least one call when there are models and attempts, and a stop at the first success or when no request is left; the result is the last reply, or the generic error when no call was made |
| Narrator.TryModel | utils/ai_narrator.py:73-90 | the attempts on one model extend the trace by policy steps; on success the result is the last reply; otherwise the trace goes on at the next model and the last error is kept |
| Narrator.TryingSucceeded | utils/ai_narrator.py:75-76 | a successful request extends the trace by one step and sleeps nothing |
| Narrator.TryingRetried | utils/ai_narrator.py:85-88 | a transient failure extends the trace by one step, sleeps `2^attempt` seconds and moves on to the next attempt |
| Narrator.TryingStopped | utils/ai_narrator.py:81-90 | a rate-limit or fatal failure extends the trace by one step without sleeping and moves on to the next model |
| Narrator.TryingExhausted | utils/ai_narrator.py:74-92 | once every attempt on a model is spent, the next request goes to the next model |
| Narrator.MovesOn | utils/ai_narrator.py:83-90 | a failure that is not retried on the model resumes at the next model |
| Narrator.PolicyOnSuccess | utils/ai_narrator.py:75-76 | a stepped trace ending in a success follows the policy, with that reply as the result |
| Narrator.PolicyOnExhaustion | utils/ai_narrator.py:94 | a stepped trace past the last model follows the policy with the last error, or with the generic error when no call was made |
| Narrator.PolicyDeterministic | utils/ai_narrator.py:69-94 | for the same models and replies the policy allows one trace, one result and one sleep log |
| Narrator.PolicyContinues | utils/ai_narrator.py:72-92 | every call but the last failed and leads on to a model of the list |
| Narrator.PolicyCallsBounded | utils/ai_narrator.py:72-74 | models are tried in list order, no request is repeated, so no list position is revisited (a name listed twice is requested again), and there are at most `models * max_retries` requests |
| Narrator.PolicyRankGrows | utils/ai_narrator.py:72-74 | later calls are strictly further along the grid of (model, attempt) and never on an earlier model |
| Narrator.RankBelow | utils/ai_narrator.py:72-74 | a call inside the grid of `n` models and `r` attempts ranks below `n * r` |
| Narrator.PolicyAttempts | utils/ai_narrator.py:74-90 | attempts on a model are consecutive from 0, each retry follows a transient failure; the first success ends the trace and is the result; a call that is not a transient failure is followed by the first attempt on the next model |
| Narrator.PolicyRetryStep | utils/ai_narrator.py:85-88 | a retry on the same model follows a transient failure on the attempt before |
| Narrator.PolicyRetries | utils/ai_narrator.py:74-88 | a call on attempt `a` is preceded by transient failures on attempts 0 to a-1 of its model, in order |
| Narrator.SleepsStep | utils/ai_narrator.py:86 | the sleep log grows by one entry exactly at a transient failure, by `2^attempt` seconds |
| Narrator.PolicyBackoff | utils/ai_narrator.py:73-87 | backoff restarts at 1 on every model and doubles: the transient failures before a call on attempt `a` slept 1, 2, ..., 2^(a-1) seconds, in order |

## Left out

- HTTP transport in `_post_openrouter`: the client, headers, payload and JSON decoding are not modelled. The request is an oracle of replies; only the error messages of lines 32, 57 and 61 are modelled.
- Exceptions other than `RuntimeError`, such as network errors raised by the HTTP client: they escape the retry loop in the source and are not modelled.
- The "unexpected response shape" error (utils/ai_narrator.py:66) is not modelled as its own message, because its text embeds the whole JSON document. The oracle may return it as any `Err` message.
- Narrator.CallWithRetry: the prompt text, `generate_job_profile`'s prompt and the `timeout` argument are not modelled. The raised exception is returned as an `Err` result, and `time.sleep` becomes a ghost log of the seconds slept.
- Registry.BenchmarkRegistry.Upsert: `uuid4` is a parameter with a freshness precondition. The database timestamp is the registry's clock. The non-empty role name and id list are required because the only caller (app.py:24) checks them. The database connection and commit are not modelled.
- Concurrent registry writes and transaction isolation are the database's concern; one sequential registry is modelled.
- Queries.CandidateTgv: the recomputed group rate (`avg(tv_match_rate)`) is not claimed to equal the stored `tgv_match_rate` that the leaderboard pivots.
- Queries.Leaderboard: `limit` is a natural number; a negative `limit`, which PostgreSQL rejects, is not modelled.
- The order of rows that tie under `order by` is whatever the stable sort gives. SQL leaves it unspecified, and no lemma relies on it.
- Strings compare by code point (C collation); a database collation other than C is not modelled.
- Text columns are never NULL in the model; nullable rates are `Option<real>`.
- If the organisation view held several rows per employee, the join would duplicate facts. The model keeps that fan-out as the SQL does, but proves nothing about it.
- `str.isdigit`, `int`, `str.strip` and `str.lower` are modelled on ASCII digits and letters and the Latin-1 whitespace characters. Other Unicode digits, whitespace and case mappings are not modelled. One consequence is not covered: Python's `isdigit` accepts characters such as superscript digits that `int` then rejects.
- The pandas DataFrame wrapping of query results, `utils/db.py` (connection lookup), `utils/charts.py` (plotting) and the Streamlit UI in `app.py` are not part of this model.
