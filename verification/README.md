# x-poster: content rotation and the no-repeat history

A Dafny model of the core of x-poster, a bot that periodically picks a
Markdown file it has not posted yet, formats its text to fit a length limit
with an optional timestamp and a line of hashtags, publishes it through the
Twitter client, and records the file's path in a history so that the file is
never posted again. Everything modelled lives in the `TwitterBot` class of
`main.py`.

- `pystr.dfy` (module `PyStr`): the Python string built-ins the bot uses:
  `' '.join`, `str.strip()` (with Python's exact white-space set) and the
  prefix slice `s[:n]`, including its negative `n`. `Split` is the inverse
  of `Join`, given for the round trip.
- `formatter.dfy` (module `Formatter`): `format_content` as a pure function
  of the content, the `content` settings and the current time as a string.
- `selection.dfy` (module `Selection`): the filter that keeps the listed
  paths absent from the history, the one change a post makes to the history,
  and the history across any number of runs.
- `bot.dfy` (module `Bot`): the class `TwitterBot` with its settings and the
  `posted_files` list as a mutable field; `get_random_content` and
  `post_tweet` as methods, the history-file default in the constructor.

The code does not guard the length budget. When the room left for the body
is below 3 and the content must be cut, Python's negative slice at
`main.py:101` keeps more than the room, and the text reaches `max_length` or
more (`Formatter.FormatFitsIff`, `Formatter.FormatOverflowExample`). With
room of at least 3, the text is at most `max_length - 1` long
(`Formatter.FormatLengthBound`).

## Model

| member | source | states |
|---|---|---|
| PyStr.JoinLength | main.py:89 | the hashtag line is as long as the tags together plus one separator between each two |
| PyStr.SplitJoin | main.py:89 | splitting the joined line at spaces gives back the tags, when there is at least one tag and none holds a space |
| PyStr.JoinSplit | main.py:89 | every string is the single-space join of its pieces between spaces |
| PyStr.TrimStart | main.py:78 | `lstrip` drops exactly the leading white space: what remains is a suffix starting with a non-space |
| PyStr.TrimEnd | main.py:78 | `rstrip` drops exactly the trailing white space: what remains is a prefix ending with a non-space |
| PyStr.Strip | main.py:78 | the stripped file text is a slice of the text with only white space around it and no white space at either end |
| PyStr.StripEmptyIff | main.py:78 | the stripped text is empty exactly when the file holds white space only |
| PyStr.StripIdempotent | main.py:78 | stripping the stripped text changes nothing |
| PyStr.PrefixSlice | main.py:101 | `s[:n]` is a prefix of `s`, of length `n` clamped to the string, or `len(s)+n` clamped at 0 for negative `n` |
| Formatter.AvailableLength | main.py:88-97 | the room for the body is `max_length` less the hashtag line and 2, and less a further `len(stamp) + 3` for the bracketed timestamp line when timestamps are on |
| Formatter.Body | main.py:99-101 | content that fits is kept as is; content that does not is a prefix of itself followed by "...", exactly `available` long when `available >= 3` and longer than `available` otherwise |
| Formatter.FormatContent | main.py:87-103 | the post always ends with a newline and the hashtags joined by spaces, and with a timestamp the segment `"\n[" + stamp + "]"` sits directly before that |
| Formatter.FormatFitting | main.py:97-103 | content no longer than the available length is published unchanged, followed by the timestamp segment, a newline and the hashtags |
| Formatter.FormatTruncated | main.py:99-103 | longer content, when the available length is at least 3, becomes its first `available-3` characters and "...", a body exactly `available` long |
| Formatter.FormatFitsIff | main.py:97-103 | the post is at most `max_length - 1` long if and only if the content fits or the available length is at least 3 |
| Formatter.FormatLengthBound | main.py:97-103 | with an available length of at least 3 every post is at most `max_length - 1` long |
| Formatter.FormatOverflowExample | main.py:100-101 | a concrete input (limit 10, tag "#abcdefg", ten characters) whose post is 19 characters long |
| Formatter.FormatShortExample | main.py:87-103 | "Hello world" with limit 20 and tag "#x" is published as "Hello world\n#x" |
| Formatter.FormatLongExample | main.py:97-103 | 100 characters with limit 20 and tag "#x" keep 13 characters and "..." |
| Selection.Unposted | main.py:68-69 | a path is a candidate exactly when it is listed and not in the history |
| Selection.UnpostedKeepsOrder | main.py:69 | the candidates keep the listing's relative order |
| Selection.UnpostedCounts | main.py:69 | each candidate occurs as often as it is listed, and a posted path never occurs |
| Selection.Record | main.py:112-114 | the history only grows, by exactly one entry, the posted path, at the end, and only when publishing succeeded |
| Selection.RecordKeepsNoDuplicates | main.py:69-75 | appending a path picked among the candidates keeps a duplicate-free history duplicate-free |
| Selection.FailedStaysCandidate | main.py:112-118 | after a failed publish the history is unchanged and the path is still a candidate |
| Selection.ReplayAppendsPosted | main.py:105-118 | after any number of runs the history is the old history followed by the successfully posted paths in order |
| Selection.RunKeepsNoDuplicates | main.py:105-118 | any number of runs that pick among their candidates keep the history duplicate-free |
| Selection.NeverPostedTwice | main.py:61-118 | a path posted in one run is never attempted again in a later run |
| Bot.TwitterBot.constructor | main.py:39-44 | the history is the stored list when the history file exists and starts empty (so duplicate-free) when it does not |
| Bot.TwitterBot.GetRandomContent | main.py:61-85 | nothing when the directory is missing or no candidate is left; a result is a listed, unposted, readable path with its stripped text; nothing otherwise only when some candidate cannot be read |
| Bot.TwitterBot.PostTweet | main.py:105-118 | the new history is the old one with the path appended only after a successful publish of the formatted text; no candidates means no publish and no change; a skip otherwise only when some candidate cannot be read; duplicates are never introduced |
| Bot.TwoRunsScenario | main.py:105-118 | with one file "a.md", the first run posts "Hello world\n#x" and records it, the second run skips |

## Left out

- Bot.TwitterBot.GetRandomContent: states that the chosen path is one of the candidates, not that `random.choice` picks it uniformly; the choice is free (any candidate).
- Logging (`setup_logger` and every `logger` call): output only.
- `load_dotenv` and `_setup_twitter_client`: credentials and the tweepy client are outside the model; publishing is the parameter `publish`, which says whether `update_status` returns for a text or raises.
- `_load_settings`: the settings are the constructor's `ContentSettings` parameter.
- `_save_history` and the JSON history file: the history is the in-memory list. The save runs after the append, so when it raises the entry stays appended in memory; what reaches the file is not modelled.
- The history file's format: the constructor takes the stored `posted_files` list; malformed JSON or a missing key, which raise in the code, are not modelled.
- Selection.NeverPostedTwice: the runs it speaks of share one in-memory history. Each scheduled `run_bot` builds a new `TwitterBot` and reloads the history from its file, and a `_save_history` that raises after a successful publish is caught and logged, so the file may miss the path and a later `run_bot` may post it again; across `run_bot` calls the guarantee holds only when every save after a publish succeeded. The same holds for Selection.RunKeepsNoDuplicates and Selection.ReplayAppendsPosted.
- `run_bot`, `schedule_jobs` and the `__main__` loop: timing and the scheduler; building a fresh bot per run is covered only through the constructor.
- `datetime.now().strftime(...)`: the time string is the parameter `stamp`.
- The content directory: whether it exists is the parameter `dirExists`, and creating it when it is missing is not modelled.
- `glob('*.md')`: the listed paths are the parameter `listing`, already converted with `str`.
- Reading a file: the texts are the map `bodies`, and any read failure is a path missing from it; UTF-8 decoding and newline translation are not modelled.
- create_dirs.py: it only creates a directory.
