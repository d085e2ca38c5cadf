# yesBot mention handling, modelled in Dafny

yesBot is a single-account Twitter bot. Each run reads the account's mentions.
It replies to every mention younger than `INTERVAL_MINUTES` (10) whose
lowercased text contains "hi". The reply is "Hi @<handle>! " followed by the
current Berlin time. When no mention produced a reply, the bot posts one status
holding only the time.

This project models that rule (`reply`, `idle_text`, `tweet` and
`INTERVAL_MINUTES` in `twitter_bot.py`) and proves what it does.

- `text.dfy`, module `TextMatch`: Python's `str.lower` (ASCII only) and
  substring `in`, as a left-to-right scan proved equal to "occurs at some index".
- `twitter_bot.dfy`, module `TwitterBot`:
  - the reply rule `Reply` and the idle text `IdleText`;
  - the specification of one run: `Replies`, `Run`, `Delivered` and `Published`;
  - the loop `Tweet`, proved against that specification;
  - lemmas on recency, order, counting, the idle fallback and failed posts.

The model abstracts three things:
- The clock and `strftime` become one opaque `timeLabel` string per run.
- The unseen `tweet_minutes_ago` becomes an `age` field on each mention.
- The Twython client becomes the list of `update_status` calls (`ReplyTo(id, text)` or `Status(text)`).
  Failing reply posts are given as a set of mention positions (`failing`).

## Model

| member | source | states |
|---|---|---|
| `TextMatch.Lower` | twitter_bot.py:53 | The lowercased message has the same length, and each character is the ASCII-lowercased original. |
| `TextMatch.Contains` | twitter_bot.py:53 | `pat in s` is true exactly when `pat` occurs contiguously in `s` at some index. |
| `TwitterBot.TriggerIsCaseInsensitive` | twitter_bot.py:53 | The lowercased text contains "hi" exactly when the text has 'h' or 'H' directly followed by 'i' or 'I'. |
| `TwitterBot.Reply` | twitter_bot.py:49-57 | Returns a value exactly when the text says "hi" in any case, even inside a word. The value is "Hi @", the author's handle, "! ", then the idle text of the same label. Otherwise returns None. |
| `TwitterBot.TriggerExamples` | twitter_bot.py:53-57 | "HI", "hI" and "this" trigger a reply; "Hello" does not. |
| `TwitterBot.Answer` | twitter_bot.py:88-94 | A mention causes at most one reply attempt. It causes one exactly when it is younger than 10 minutes and says "hi". That attempt is addressed to the mention's id and carries the greeting for its author. |
| `TwitterBot.Replies` | twitter_bot.py:86-97 | A pass over the mentions makes only threaded replies, no more than there are mentions. |
| `TwitterBot.Run` | twitter_bot.py:86-102 | A run always makes at least one call. Its last call is a status exactly when no recent mention says "hi", and that status is the idle text. |
| `TwitterBot.Delivered` | twitter_bot.py:92-97 | The replies actually published are all threaded replies and never more than the attempts. |
| `TwitterBot.Published` | twitter_bot.py:92-102 | What a run publishes is never more than its calls. The idle status is among it exactly when no recent mention says "hi", whichever posts fail. |
| `TwitterBot.DeliveredCount` | twitter_bot.py:92-97 | The number of published replies equals the number of answered mentions whose post does not fail, however the failures are spread. |
| `TwitterBot.DeliveredPrefix` | twitter_bot.py:86-97 | The replies published for the first j mentions begin the replies published for the whole list. |
| `TwitterBot.DeliveredReply` | twitter_bot.py:92-97 | An answered mention whose post does not fail is published, after the replies published before it, even when earlier posts failed. |
| `TwitterBot.FailedReplyNotDelivered` | twitter_bot.py:92-97 | A mention whose post fails adds nothing to what is published. |
| `TwitterBot.ReplyEndsWithIdleText` | twitter_bot.py:55-63 | Every reply ends with exactly the idle status text of the same label. |
| `TwitterBot.Tweet` | twitter_bot.py:79-104 | The loop makes exactly the calls of `Run` and publishes exactly `Published`. `replied` is true exactly when some recent mention says "hi", whatever posts failed. |
| `TwitterBot.RepliesAppend` | twitter_bot.py:86-97 | The attempts for two lists of mentions read in turn are the first list's attempts followed by the second's. |
| `TwitterBot.RepliesSplit` | twitter_bot.py:86-94 | Each mention contributes exactly its own attempt, at its place in the list. There is no deduplication and no early exit. |
| `TwitterBot.StaleMentionIgnored` | twitter_bot.py:86-89 | Removing a mention aged 10 minutes or more leaves the run's attempts unchanged. |
| `TwitterBot.StaleTextIrrelevant` | twitter_bot.py:88-89 | Whatever text a mention aged 10 minutes or more has, the run's attempts are the same. |
| `TwitterBot.RepliesCount` | twitter_bot.py:86-91 | The number of reply attempts equals the number of positions holding a recent mention that says "hi". |
| `TwitterBot.IdleStatusRule` | twitter_bot.py:98-102 | Suppose no recent mention says "hi". Then the run's only call is one idle status with the time label. Otherwise every call is a reply. A run makes n calls when n mentions are answered, and 1 call when none are. |
| `TwitterBot.AnsweredMentionGetsReply` | twitter_bot.py:88-94 | An answered mention's reply sits at the position given by the attempts before it. It is addressed to the mention's id and carries the greeting for its author. |
| `TwitterBot.FailedRepliesSuppressIdle` | twitter_bot.py:90-98 | Suppose some mention is answered and every answered mention's post fails. Then the run still made calls, yet it publishes nothing, not even the idle status. |
| `TwitterBot.NothingDelivered` | twitter_bot.py:92-97 | When every answered mention's post fails, no reply is published. |
| `TwitterBot.NoFailuresDeliverAll` | twitter_bot.py:92-102 | Without failures, everything attempted is published. |

## Left out

- Credential loading from `credentials.py` or the environment, and `sys.exit` when a key is missing (lines 24-40): process and environment I/O.
- `setup()`: the Twython login, `verify_credentials` and printing account statistics (lines 66-77): network calls to a foreign library.
- Reading and printing the rate-limit header (lines 83-84): it is observational only.
- `datetime.now`, the `Europe/Berlin` zone and the `strftime` format (lines 54-55, 62-63): the model uses one opaque label per run. The source reads the clock separately for each reply and for the idle status, so labels within one run may differ there.
- `tweet_minutes_ago` from `helper` and everything from `tweet_text`: helper.py and tweet_text.py are not part of this model. A mention's age is an input.
- Fetching the mentions timeline: the mentions are a parameter of `Tweet`.
- Console output and the ids of sent tweets.
- `TextMatch.Lower`: lowercases ASCII 'A'..'Z' only. Python's `str.lower` is Unicode-wide; for example 'İ' lowercases to "i̇", which contains 'i'.
- `TwitterBot.Published`: a failure of the idle-status post is not modelled. The source does not catch it, and the run ends with the error.
