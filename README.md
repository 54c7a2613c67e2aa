# arxiv_bot in Dafny

A model of the core of arxiv_bot, a bot that posts new arXiv papers of one
category to Twitter. The bot has three parts:

- `src/arxiv_bot.py` holds the paper store and the bot. `Entries` is a table
  of papers keyed by url, with a `tweeted_at` column that stays empty until
  the paper is tweeted. `ArXivBot` fetches papers into the table, then tweets
  the oldest untweeted ones, at most `max_tweet` per round. A message longer
  than 140 characters has its title shortened and ended with `..`; the url
  is never cut.
- `src/arxiv_api.py` builds the arXiv query URL and turns each Atom
  `<entry>` of the reply into a paper record. It also holds an older copy of
  the call throttle.
- `src/throttle.py` holds the call throttle: a decorator that keeps calls of
  one function name at least a given delay apart.

Modules:

- `Store` (`store.dfy`) models `Entries`. The SQLite table is a class field
  `table: map<string, Row>` that the methods reassign. A `Row` holds the
  columns after the url; an `Entry` is the dict the code passes around.
- `Throttle` (`throttle.dfy`) models the `throttle` decorator. Its `funcs`
  dictionary is a field of the `Registry` class.
- `ArxivApi` (`arxiv_api.dfy`) models `_throttle` as written, the options
  dictionary and query URL of `query`/`search_query`, and the entry-to-record
  step of `search_query`.
- `Bot` (`bot.dfy`) models `ArXivBot`. `fetch_new_papers`, `tweet_untweeted`
  and the posting loop inside it are methods of the `ArXivBot` class. Each
  is proved against a function over the table: `UpsertAll` or
  `MarkTweeted`.

Inputs the code gets from outside become parameters:

- The clock: `now` and `finishedAt` for the throttles, `now` for
  `search_query`, and the `at` of a successful post.
- The feed's reply: a sequence of `AtomEntry`, or, for the bot, of `Paper`.
- Each post's answer: a `PostResult`.

Times are `real` seconds in the throttles. The dates in the table are
integers: times compare as `datetime(updated_at)` orders them.

Three behaviours worth knowing, where the code does less than its names
suggest:

- `fetch_new_papers` adds one to its count for every paper the feed returns
  (`count += 1` at src/arxiv_bot.py:125), whether the paper was new or
  already stored (`Bot.ArXivBot.FetchNewPapers`).
- `format_entry` aims at `max_len = 140` (src/arxiv_bot.py:148), but when the
  url alone is longer than 136 characters the title is cut to nothing and
  the message is still longer than 140 (`Bot.FormatEntry`).
- `parse_entry` splits the stored authors with `split(', ')`
  (src/arxiv_bot.py:101), so a name that itself contains `", "` comes back
  as two names, and an empty author list comes back as one empty name
  (`Store.JoinNotInverted`).

## Model

| member | source | states |
|---|---|---|
| Store.Names | src/arxiv_bot.py:51-52 | one name per schema column; each name is the column declaration's leading run of non-space characters, ended by a space |
| Store.NameIs | src/arxiv_bot.py:51-52 | a column declared as a space-free word followed by a space is named by that word |
| Store.KeyColumnFirst | src/arxiv_bot.py:48-52 | the first column name is `url`, the primary key |
| Store.TitleColumnSecond | src/arxiv_bot.py:48-52 | the second column name is `title`, the key `parse_entry` gives the row's second value |
| Store.AuthorsColumnThird | src/arxiv_bot.py:48-52 | the third column name is `authors`, the key `parse_entry` splits |
| Store.SummaryColumnFourth | src/arxiv_bot.py:48-52 | the fourth column name is `summary` |
| Store.UpdatedAtColumnFifth | src/arxiv_bot.py:48-52 | the fifth column name is `updated_at` |
| Store.TweetedAtColumnSixth | src/arxiv_bot.py:48-52 | the sixth column name is `tweeted_at` |
| Store.Split | src/arxiv_bot.py:101 | `split(', ')` yields at least one piece, none holding `", "`, the first a prefix of the input |
| Store.JoinSplit | src/arxiv_bot.py:68-103 | joining the pieces of a split with `", "` gives back the string |
| Store.JoinSplitStep | src/arxiv_bot.py:101 | a split of a string not starting with `", "` joins back to it when the split of its tail does |
| Store.ParseAuthorsRoundTrip | src/arxiv_bot.py:68-103 | the authors text stored by `add_or_update_entry` is rebuilt exactly from the list `parse_entry` makes of it |
| Store.SplitJoin | src/arxiv_bot.py:68-103 | a non-empty author list whose names hold no `", "` survives store-then-parse unchanged |
| Store.JoinNotInverted | src/arxiv_bot.py:68-103 | an empty author list comes back as `[""]`, and a name holding `", "` comes back split in two |
| Store.SplitAfterPiece | src/arxiv_bot.py:101 | splitting `a + ", " + b` with no separator in `a` gives `a` followed by the pieces of `b` |
| Store.SplitNoSep | src/arxiv_bot.py:100-103 | a string with no `", "` splits into itself alone |
| Store.Upsert | src/arxiv_bot.py:64-83 | the table after `add_or_update_entry`: the url is a key and no other key is added; other rows are unchanged; title, authors (joined), summary and updated_at are overwritten; `tweeted_at` changes only when the entry carries a non-empty one, and a new row takes the entry's |
| Store.UpsertSize | src/arxiv_bot.py:73-83 | the table grows by one row exactly when the url was not stored yet |
| Store.ReUpsertParsed | src/arxiv_bot.py:64-104 | storing back an entry as `parse_entry` returned it leaves the table unchanged |
| Store.UpsertMarksTweeted | src/arxiv_bot.py:64-83 | storing back a parsed entry with a `tweeted_at` changes only that column of its row |
| Store.Insert | src/arxiv_bot.py:93-95 | inserting into a listing adds exactly that entry (as multisets) |
| Store.InsertMembers | src/arxiv_bot.py:93-95 | the listing after an insert holds the new entry and every old one, and nothing else |
| Store.InsertSorted | src/arxiv_bot.py:93 | inserting keeps a listing ordered by `updated_at`, ascending or descending as asked |
| Store.InsertDistinct | src/arxiv_bot.py:93-95 | inserting an entry with a new url keeps the urls of a listing distinct |
| Store.UrlsMember | src/arxiv_bot.py:93-95 | a url is among a listing's urls exactly when some entry of the listing has it |
| Store.DistinctUrlsCount | src/arxiv_bot.py:93-95 | a listing with distinct urls has as many urls as entries |
| Store.ListingCount | src/arxiv_bot.py:90-96 | a correct untweeted listing holds exactly the untweeted urls, one entry each |
| Store.Entries.constructor | src/arxiv_bot.py:37-40 | the store opens on the rows already in the database |
| Store.Entries.HasEntry | src/arxiv_bot.py:58-62 | true exactly when the url is stored |
| Store.Entries.AddOrUpdateEntry | src/arxiv_bot.py:64-83 | returns true exactly when the url was new, and leaves the table as `Upsert` says |
| Store.Entries.GetTotalEntries | src/arxiv_bot.py:85-88 | the number of stored rows |
| Store.Entries.GetUntweetedEntries | src/arxiv_bot.py:90-96 | a listing of exactly the rows with an empty `tweeted_at`, each as `parse_entry` makes it, no url twice, ordered by `updated_at` as asked |
| Throttle.SleepFor | src/throttle.py:11-21 | the sleep is never negative, is zero without a deadline, and ends no earlier than the deadline, exactly at it when the call sleeps at all |
| Throttle.Record | src/throttle.py:22-24 | after a return, the name's deadline is completion time plus delay and other names keep theirs; after a raise, nothing changes |
| Throttle.Registry.constructor | src/throttle.py:11 | before any throttled call, no name has a deadline |
| Throttle.Registry.Call | src/throttle.py:10-25 | one throttled call sleeps as `SleepFor` says, passes the function's outcome through, and updates `funcs` as `Record` says |
| Throttle.SpacedCalls | src/throttle.py:11-24 | after a call returns, the next call of that name starts no earlier than the delay later, and other names are not delayed |
| Throttle.SharedSlot | src/throttle.py:11-24 | two functions with the same `__name__` share one deadline, set by whichever ran last |
| ArxivApi.LegacySleep | src/arxiv_api.py:18-22 | `_throttle` sleeps for the deadline minus now whenever the name has a deadline, with no sign check |
| ArxivApi.LegacyRegistry.constructor | src/arxiv_api.py:18 | `_throttle` starts with no deadlines, in a dictionary apart from `throttle`'s |
| ArxivApi.LegacyRegistry.Call | src/arxiv_api.py:17-26 | a call whose sleep would be negative raises before the function runs and records nothing; otherwise it is the guarded throttle's call |
| ArxivApi.LegacyStuckAfterDeadline | src/arxiv_api.py:19-24 | once the deadline has passed, every later call of the name fails in `time.sleep`, where the guarded throttle sleeps zero |
| ArxivApi.LegacySecondQueryFails | src/arxiv_api.py:14-36 | a second `query` six seconds after the first returned asks to sleep -4 seconds and fails |
| ArxivApi.LegacyAgreesBeforeDeadline | src/arxiv_api.py:19-22 | where `_throttle`'s sleep does not fail, it equals the guarded throttle's |
| ArxivApi.SplitOn | src/arxiv_api.py:38 | splitting on one character gives at least one piece, none holding the character |
| ArxivApi.SplitFirst | src/arxiv_api.py:38 | no split exactly when the character is absent; otherwise the text before its first occurrence and the rest |
| ArxivApi.SplitFirstAt | src/arxiv_api.py:38 | splitting `a + c + b` at the first `c`, with no `c` in `a`, gives `a` and `b` |
| ArxivApi.SplitOnAfterPiece | src/arxiv_api.py:38 | splitting `a + c + b` with no `c` in `a` gives `a` followed by the pieces of `b` |
| ArxivApi.SplitOnNoSep | src/arxiv_api.py:38 | a string without the character splits into itself alone |
| ArxivApi.SplitOnJoin | src/arxiv_api.py:38 | splitting a join gives back the pieces when there is one and none holds the separator |
| ArxivApi.LookupNone | src/arxiv_api.py:49-50 | a key has no value exactly when no pair carries it |
| ArxivApi.SetOption | src/arxiv_api.py:50 | after setting a key it maps to the new value and every other key keeps its value |
| ArxivApi.SetOptionDistinct | src/arxiv_api.py:50 | setting a key keeps the keys distinct |
| ArxivApi.Update | src/arxiv_api.py:50 | after `update`, a key maps to the keyword value when there is one, else to its old value |
| ArxivApi.UpdateDistinct | src/arxiv_api.py:50 | `update` keeps the keys distinct |
| ArxivApi.SearchOptions | src/arxiv_api.py:49-50 | the query options have distinct keys; `search_query` is the query string unless a keyword overrides it; every other key is the keyword's |
| ArxivApi.QueryUrl | src/arxiv_api.py:38 | the URL starts with the base URL and `?` |
| ArxivApi.QueryUrlRoundTrip | src/arxiv_api.py:38 | parsing the URL back gives the base and every option in order, when the base has no `?`, keys hold no `&` or `=`, and values hold no `&` |
| ArxivApi.TextOr | src/arxiv_api.py:54-65 | a missing child gives `N/A`, a present one its text |
| ArxivApi.AllNames | src/arxiv_api.py:72 | every author's name in order, exactly when every author has a name |
| ArxivApi.AuthorNames | src/arxiv_api.py:71-74 | all names in order when every author has one; no authors at all when any lacks one |
| ArxivApi.PaperOf | src/arxiv_api.py:54-81 | url, title and summary are the child texts or `N/A`; `updated_at` is the parsed time or now; authors as `AuthorNames` says |
| ArxivApi.SearchQuery | src/arxiv_api.py:47-82 | requests the URL of the `search_query` options and returns one record per entry, in document order |
| Bot.PrefixLength | src/arxiv_bot.py:135-152 | the length of a Python prefix slice: a stop in range is kept, a large one clamps to the length, a negative one counts from the end and clamps at zero |
| Bot.PyPrefix | src/arxiv_bot.py:135-152 | `s[:stop]` is a prefix of `s` of that length |
| Bot.FormatEntry | src/arxiv_bot.py:147-155 | `title. url` when it fits 140; otherwise the title cut to leave exactly 140 with `..` after it, or, for a url over 136 characters, no title and more than 140; fits exactly in those two cases; the url always ends the text whole |
| Bot.UpsertAllKeys | src/arxiv_bot.py:121-125 | fetching adds a row for every fetched url and for no other |
| Bot.UpsertAllOthers | src/arxiv_bot.py:121-125 | rows of urls the feed did not return are unchanged |
| Bot.UpsertAllStamps | src/arxiv_bot.py:121-125 | a fetch leaves every stored row's `tweeted_at` as it was, stamped or empty, since fetched papers carry none; a row the fetch created is untweeted |
| Bot.LastFetchWins | src/arxiv_bot.py:121-125 | a fetched url's row holds the title, authors, summary and date of its last occurrence in the reply |
| Bot.MarkTweeted | src/arxiv_bot.py:135-141 | posting a batch keeps the keys and leaves rows outside the batch unchanged |
| Bot.Successes | src/arxiv_bot.py:138-141 | the number of successful posts is at most the number of posts |
| Bot.MarkTweetedAt | src/arxiv_bot.py:137-141 | a posted entry's row is stamped with the post time when the post went out and left untweeted when it failed |
| Bot.MarkOne | src/arxiv_bot.py:138-141 | stamping one untweeted row removes it from the untweeted rows exactly when its post went out |
| Bot.MarkTweetedCount | src/arxiv_bot.py:133-145 | a round leaves as many fewer untweeted rows as posts went out |
| Bot.OldestFirst | src/arxiv_bot.py:135 | every entry of the batch is at least as old as every untweeted row left out of it |
| Bot.Messages | src/arxiv_bot.py:136 | one message per batch entry |
| Bot.MessagesAt | src/arxiv_bot.py:135-136 | the k-th message is the `format_entry` text of the k-th entry |
| Bot.TweetStep | src/arxiv_bot.py:135-141 | before each post, the entry's row is still the stored one, and the post's mark extends the table |
| Bot.ArXivBot.constructor | src/arxiv_bot.py:113-119 | the bot keeps the store and the tweet limit it is given |
| Bot.ArXivBot.FetchNewPapers | src/arxiv_bot.py:121-131 | upserts every fetched paper in order and returns how many the feed returned |
| Bot.ArXivBot.PostBatch | src/arxiv_bot.py:135-145 | posts the batch in order, stamps exactly the successes, and counts them |
| Bot.ArXivBot.TweetUntweeted | src/arxiv_bot.py:133-145 | takes the first `max_tweet` of the oldest-first untweeted listing, posts each, marks the successes, returns their number; the untweeted count drops by that number |

## Left out

- The SQL itself, `create_table`, `delete`, `list_entry` and the connection
  handling: the table is a map.
- The logging, `main`, the argument parsing, the restart loop and the
  scheduling loop `arxiv_bot_job`: they only call the modelled operations.
- Row order for equal `updated_at`: SQLite leaves it open, and the model
  accepts any such order.
- The HTTP request, the Atom/XML parsing and the `dateutil` parsing: an
  entry arrives as the optional texts of its children, and its time as an
  optional integer.
- An element present with no text, for which the code yields Python's
  `None`. The model sees only a missing element (`N/A`) or its text.
- Python 2's dictionary iteration order in `query`: the options are kept in
  insertion order. Values are not URL-escaped, as in the code.
- ArxivApi.SearchQuery: one clock reading `now` stands for every
  `datetime.now()` call of the loop.
- The Twitter clients (`src/twitter_api.py`, `src/twitter.py`): a post's
  success is an input. Their `tweet` methods share the throttle slot
  `"tweet"`; `Throttle.SharedSlot` states that. The throttle is not
  composed into the bot.
- Bot.ArXivBot.FetchNewPapers: the search arguments (`cat:<category>`,
  `max_results=max_fetch`, the sort order) are not modelled. The feed's
  reply is the method's input, so `category` and `max_fetch` are not
  fields of the model's `ArXivBot`.
- ArxivApi.SearchQuery: the `_throttle` decorator around `query`
  (src/arxiv_api.py:35) is not composed into it, so the model's
  `SearchQuery` never raises. The second query that fails under
  `_throttle` (see "## Findings") is modelled apart, by
  `ArxivApi.LegacyRegistry.Call`.
- Bot.ArXivBot.TweetUntweeted: a post that raises (the Twitter client's
  `api.post` can) is not modelled. `tweet_untweeted` has no `try`, so such
  an exception ends the round partway: the remaining entries of the batch
  are not posted, rows stamped earlier stay stamped, and no count is
  returned. The model's poster only accepts or rejects, so every batch is
  posted in full.
- Floating-point rounding of `time.time()` and the sleep: times are exact
  reals.
- Bot.ArXivBot.TweetUntweeted: the listing and the batch are ghost results.
  The messages, the count and the new table are real ones.

## Findings

| source | as written | input that shows it | evidently intended | confidence | as-written member | corrected member |
|---|---|---|---|---|---|---|
| src/arxiv_api.py:20-22 | `_throttle` calls `time.sleep(deadline - now)` with no check of its sign. A negative duration raises before the wrapped `query` runs, so no new deadline is recorded. Every later call then fails too. | A first `query` returns at t=100 (deadline 102); a second `query` at t=106 sleeps -4 and raises. | Sleep only when the remaining time is positive, as `src/throttle.py:13-21` does. | not executed | ArxivApi.LegacySecondQueryFails | Throttle.SleepFor |
