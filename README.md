# Chat statistics for a Telegram export

A model of the `ChatStatistics` class of `src/chat_statistics/stats.py`.
The class reads a Telegram chat export and does two things.

- **Top responders.** It ranks the authors who most often reply to messages
  that contain a question.
- **Word-cloud text.** It builds the text handed to a word-cloud renderer: the
  stop-word-filtered tokens of every message whose text is a plain string,
  cleaned up and reshaped twice for right-to-left display.

A message's `text` is either a plain string or a list of fragments. A
fragment is a bare string or an annotated span (link, mention, ...) whose
`text` member may be absent. The ranking's first pass rebuilds each
composite text into one string and writes it back into the message
record.

## How the model is laid out

- `Transcript` holds the values and the record class.
  - `Msg` is a message as a value. `Message` is the mutable record: only
    its `text` is a `var`.
  - `Toolkit` holds the foreign collaborators as total function values: the
    sentence and word tokenisers and the normaliser of the language library,
    the letter reshaper, the display reordering and the emoji replacer.
  - `Concat` lays strings end to end.
- `Rebuild` covers `rebuild_msg` as the function `Flatten`, and the
  rewritten record as `Flattened` and `FlattenAll`.
- `Questions` covers question detection: `HasQuestion` and `QuestionIds`,
  plus `FlagMap`, the `is_question` dictionary pass by pass.
- `Counter` models `collections.Counter` as `Tally`: one `(author, count)`
  entry per distinct author, in first-vote order. `IsCounterOf` gives its
  defining facts.
- `Ranking` models `most_common(n)` as `MostCommon`: a stable sort by count,
  descending, then the first `n` entries, and nothing when `n <= 0`.
- `Responders` covers the second pass (`Voters`) and the whole ranking as a
  function of the transcript (`TopUsers`).
- `Corpus` covers the word-cloud text.
  - `TextContent`: the token loop.
  - `StripControls`: the regular-expression replacement inside
    `deEmojify`.
  - `ReshapeRounds`: the two reshaping rounds.
- `Stats.ChatStatistics` is the class itself.
  - Its loops are methods: `rebuild_msg`, `msg_has_question`, both passes of
    `get_top_users`, and the token loop of `generate_word_cloud`.
  - Each method is proved against the functions above. Those functions'
    properties are proved as lemmas.

The first pass of `get_top_users` repeats the body of `msg_has_question`
line for line. `FlagQuestions` therefore calls `MsgHasQuestion`.

The two passes of `get_top_users` are the methods `FlagQuestions` and
`CollectResponders`.

The message list may hold the same record object twice. The first pass
is still proved correct in that case: rebuilding an already rebuilt text
changes nothing.

Details of the code that the model keeps:

- **Word-cloud corpus.** The token loop reads each message's current
  `text`, so a message rebuilt by an earlier `get_top_users` call is a
  string by then and is included (stats.py:118-119). The model reads the
  records' current values.
- **Stop words.** A token is dropped when it is literally in the set of
  normalised stop words; the token itself is not normalised first
  (stats.py:121).
- **Replies.** A `reply_to_message_id` of `0` counts as absent, the same
  as a missing one, because it is falsy for `msg.get` (stats.py:93).
- **Truncation.** The sort is stable, so `most_common(n)` is a prefix of
  `most_common(m)` for every `n <= m`, with no condition on ties.

## Model

| member | source | states |
|---|---|---|
| Stats.ChatStatistics.constructor | src/chat_statistics/stats.py:21-38 | the loaded transcript, the normalised stop-word set and the collaborators become the object's state |
| Stats.ChatStatistics.RebuildMsg | src/chat_statistics/stats.py:41-52 | the loop's result is `Flatten` of the fragments: each fragment's piece in order, bare strings verbatim, a span's `text` when present, nothing otherwise |
| Stats.ChatStatistics.MsgHasQuestion | src/chat_statistics/stats.py:54-68 | the record's text becomes the plain rebuilt string; the result is true exactly when some sentence of the segmented rebuilt text contains `?` or `؟` |
| Stats.ChatStatistics.FlagQuestions | src/chat_statistics/stats.py:78-89 | every record's text becomes the plain rebuilt string of its entry value; the dictionary's keys are exactly the ids of the question-bearing messages and every value is true |
| Stats.ChatStatistics.CollectResponders | src/chat_statistics/stats.py:91-99 | the list is `Voters` of the current transcript: the author of each message whose truthy reply id is flagged, in message order |
| Stats.ChatStatistics.GetTopUsers | src/chat_statistics/stats.py:70-101 | every record ends rebuilt (`FlattenAll` of the entry values), and the result is `TopUsers` of the transcript as it was on entry |
| Stats.ChatStatistics.LoadTextContent | src/chat_statistics/stats.py:116-122 | the accumulated string is `TextContent` of the current transcript |
| Stats.ChatStatistics.GenerateWordCloud | src/chat_statistics/stats.py:116-137 | the string handed to the renderer is two reshaping rounds applied to the normalised text content |
| Rebuild.Flattened | src/chat_statistics/stats.py:80-81 | a rebuilt message has a plain text with the same content and the same id, author and reply id; a message that is already plain is unchanged |
| Rebuild.FlattenAppend | src/chat_statistics/stats.py:45-52 | rebuilding distributes over concatenation of fragment lists |
| Rebuild.FlattenAt | src/chat_statistics/stats.py:46-50 | each fragment's piece occurs verbatim between the rebuilt fragments before it and those after it |
| Rebuild.FlattenLength | src/chat_statistics/stats.py:45-52 | the rebuilt string's length is the sum of the pieces' lengths: no separator is inserted |
| Rebuild.FlattenSkipsEmptySpan | src/chat_statistics/stats.py:49-50 | an annotated span without `text` can be removed without changing the result |
| Rebuild.FlattenAllIdempotent | src/chat_statistics/stats.py:80-81 | rewriting an already rewritten transcript changes nothing |
| Rebuild.RebuildExample | src/chat_statistics/stats.py:45-52 | a link span "Hello " followed by the bare string "world" rebuild to "Hello world" |
| Questions.HasMarker | src/chat_statistics/stats.py:65 | a sentence counts (here and at line 85) when it contains `؟` (U+061F) or `?`, the negation of the `'؟' not in sent and '?' not in sent` skip |
| Questions.QuestionIffKeptMarkers | src/chat_statistics/stats.py:63-68 | for a segmenter that keeps every `?` and `؟` of the text in some sentence and invents none, a message is question-bearing if and only if its text contains `?` or `؟` |
| Questions.FlagMapPrefix | src/chat_statistics/stats.py:78-89 | after the first `n` messages the dictionary's keys are the question ids of those messages and all its values are true |
| Questions.FlagMapMeaning | src/chat_statistics/stats.py:78-89 | after the whole pass the keys are `QuestionIds` of the transcript and all values are true |
| Questions.QuestionIdsMeaning | src/chat_statistics/stats.py:78-89 | an id is flagged if and only if some message with that id is question-bearing |
| Questions.QuestionIffMarker | src/chat_statistics/stats.py:63-68 | for a segmenter whose sentences laid end to end give back the text (one that keeps every character), a message is question-bearing if and only if its text contains `?` or `؟` |
| Questions.ConcatHas | src/chat_statistics/stats.py:63-65 | a character occurs in the concatenated sentences if and only if it occurs in one of them |
| Questions.PersianExamples | src/chat_statistics/stats.py:63-68 | "چطوری؟" is a question and "سلام" is not, for any segmenter that only cuts the text |
| Counter.TallyFacts | src/chat_statistics/stats.py:101 | `Counter(users)` has one entry per distinct author with that author's number of votes, entries in first-vote order, counts adding up to the number of votes |
| Counter.TallyKnows | src/chat_statistics/stats.py:101 | the counter has an entry for an author if and only if the author voted |
| Counter.TallyLength | src/chat_statistics/stats.py:101 | the counter has as many entries as there are distinct authors |
| Counter.BumpExisting | src/chat_statistics/stats.py:101 | a vote for a known author raises that author's count by one and changes no other entry |
| Counter.BumpNew | src/chat_statistics/stats.py:101 | a vote for a new author appends the entry (author, 1) |
| Counter.FirstIndexExtend | src/chat_statistics/stats.py:99 | appending a vote does not move an earlier author's first vote |
| Ranking.InsertPermutes | src/chat_statistics/stats.py:101 | inserting an entry into the sorted list adds exactly that entry |
| Ranking.SortPermutes | src/chat_statistics/stats.py:101 | sorting by count is a permutation: same entries, same length, same total |
| Ranking.SortDistinct | src/chat_statistics/stats.py:101 | sorting keeps authors distinct |
| Ranking.SortOrders | src/chat_statistics/stats.py:101 | if the entries are in first-vote order, the sorted list has non-increasing counts and equal counts stay in first-vote order |
| Ranking.LocalToGlobal | src/chat_statistics/stats.py:101 | neighbour-by-neighbour order of counts and ties implies the order for every pair |
| Ranking.SortedTally | src/chat_statistics/stats.py:101 | the sorted counter is a ranking of the votes: distinct authors, exact counts, every voter present, counts descending, ties in first-vote order, total equal to the number of votes, one entry per voter |
| Ranking.MostCommonCounts | src/chat_statistics/stats.py:101 | every entry of `most_common(n)` is a voter with exactly their vote count, no author twice, total at most the number of votes |
| Ranking.MostCommonOrder | src/chat_statistics/stats.py:101 | counts of `most_common(n)` never increase, and authors with equal counts appear in the order of their first vote |
| Ranking.MostCommonLength | src/chat_statistics/stats.py:101 | `most_common(n)` has no entries when `n <= 0`, otherwise the smaller of `n` and the number of distinct voters |
| Ranking.MostCommonComplete | src/chat_statistics/stats.py:101 | a voter is left out only when there are already `n` entries, each with at least as many votes, and the ones with equally many voted first |
| Ranking.MostCommonPrefix | src/chat_statistics/stats.py:101 | for `n <= m`, `most_common(n)` is a prefix of `most_common(m)` |
| Responders.RepliesTo | src/chat_statistics/stats.py:93-94 | `msg.get('reply_to_message_id')` is truthy: the field is present and not 0 |
| Responders.Votes | src/chat_statistics/stats.py:93-97 | a message casts a vote when neither skip applies: its reply id is truthy and names a flagged id |
| Responders.VotersBound | src/chat_statistics/stats.py:91-99 | there are no more votes than messages with a truthy reply id |
| Responders.VotersCount | src/chat_statistics/stats.py:91-99 | each author's number of votes is the number of voting messages they wrote |
| Responders.VotersAppend | src/chat_statistics/stats.py:91-99 | the votes of a concatenated transcript are the votes of the parts, in order |
| Responders.VoteAt | src/chat_statistics/stats.py:92-99 | message `i` adds its author once, in place, when it replies to a flagged id, and nothing otherwise |
| Responders.UnresolvedReplyCastsNoVote | src/chat_statistics/stats.py:93-97 | a message whose reply id is absent, 0, or names no message of the transcript casts no vote |
| Responders.TopUsersTotal | src/chat_statistics/stats.py:70-101 | the counts of the ranking add up to at most the number of replying messages |
| Responders.QuestionIdsFlattenAll | src/chat_statistics/stats.py:79-89 | the rewritten transcript flags the same ids |
| Responders.VotersFlattenAll | src/chat_statistics/stats.py:91-99 | the rewritten transcript casts the same votes |
| Responders.TopUsersStable | src/chat_statistics/stats.py:70-101 | a second `get_top_users` on the transcript the first one rewrote returns the same ranking |
| Responders.AnsweredQuestion | src/chat_statistics/stats.py:70-101 | "Are you coming?" from A, answered by B: the ranking is [("B", 1)] |
| Responders.ReplyToMissingMessage | src/chat_statistics/stats.py:93-97 | the same exchange with the reply pointing at id 99: the ranking is empty |
| Corpus.FilterMembers | src/chat_statistics/stats.py:121 | a token is kept if and only if it is one of the tokens and not a stop word |
| Corpus.FilterAppend | src/chat_statistics/stats.py:121 | filtering works token by token, so the kept tokens keep their order |
| Corpus.FilterNoStopWords | src/chat_statistics/stats.py:121 | when no token is a stop word, all tokens are kept |
| Corpus.JoinAppend | src/chat_statistics/stats.py:122 | joining two non-empty lists puts exactly one separator between them |
| Corpus.TextContentAppend | src/chat_statistics/stats.py:117-122 | the text content of a concatenated transcript is the two contents laid end to end |
| Corpus.TextContentSnoc | src/chat_statistics/stats.py:118-122 | one more message appends its contribution at the end |
| Corpus.ContributionAt | src/chat_statistics/stats.py:118-122 | message `i` adds a space and its kept tokens joined by spaces, in place, when its text is a string, and nothing when it is still a fragment list |
| Corpus.CatSat | src/chat_statistics/stats.py:119-122 | "the cat sat" with stop word "the" contributes " cat sat" |
| Corpus.DropRun | src/chat_statistics/stats.py:127-130 | the leading run of U+2066/U+2069 characters removed: a suffix that does not start with one, everything before it being one |
| Corpus.StripControlsPerCharacter | src/chat_statistics/stats.py:127-131 | the greedy replacement of each run of U+2066/U+2069 by one space is the per-character rule: the first control character of a run becomes a space, the rest vanish, everything else is copied |
| Corpus.StripControlsLeavesNone | src/chat_statistics/stats.py:127-131 | no U+2066 or U+2069 survives the replacement |
| Corpus.StripControlsKeeps | src/chat_statistics/stats.py:127-131 | a string without those characters is left as it is |
| Corpus.StripControlsIdempotent | src/chat_statistics/stats.py:127-131 | replacing twice is replacing once |
| Rebuild.Piece | src/chat_statistics/stats.py:47-50 | what one fragment adds: a bare string verbatim, an annotated span its `text` member, nothing when that member is absent |
| Rebuild.Flatten | src/chat_statistics/stats.py:45-52 | the pieces of the fragments concatenated in order with no separator; its meaning is given by `Rebuild.FlattenAt` and `Rebuild.FlattenLength` |
| Rebuild.Content | src/chat_statistics/stats.py:60-61 | the string a `text` field stands for: itself when plain, the rebuilt fragments otherwise |
| Rebuild.FlattenAll | src/chat_statistics/stats.py:79-81 | every message of the transcript with its text rebuilt as a plain string, as the first pass leaves it |
| Questions.HasQuestion | src/chat_statistics/stats.py:63-68 | some sentence of the segmented text contains `?` or `؟`; `Questions.QuestionIffMarker` relates it to the whole text |
| Questions.QuestionIds | src/chat_statistics/stats.py:78-89 | the ids of the messages whose rebuilt text is question-bearing; `Questions.QuestionIdsMeaning` gives both directions |
| Questions.FlagMap | src/chat_statistics/stats.py:78-89 | the `is_question` dictionary after the first `n` messages: a true entry for each question-bearing one |
| Counter.Bump | src/chat_statistics/stats.py:101 | one more vote counted by `Counter`: the author's entry goes up by one, or (author, 1) is appended; `Counter.BumpExisting` and `Counter.BumpNew` state both cases |
| Counter.Tally | src/chat_statistics/stats.py:101 | `Counter(users)`: the votes counted one at a time in order; `Counter.TallyFacts` proves it meets `IsCounterOf` |
| Ranking.Insert | src/chat_statistics/stats.py:101 | a stable insertion by count, largest first; `Ranking.InsertPermutes` states what it adds |
| Ranking.SortByCount | src/chat_statistics/stats.py:101 | the counter's entries sorted stably by count, largest first; `Ranking.SortPermutes` and `Ranking.SortOrders` give its meaning |
| Ranking.Take | src/chat_statistics/stats.py:101 | the first `n` entries, none when `n <= 0`, all when `n` exceeds the length |
| Ranking.MostCommon | src/chat_statistics/stats.py:101 | `most_common(n)`: the stable sort by count cut to `n`; `Ranking.MostCommonCounts`, `MostCommonOrder`, `MostCommonLength` and `MostCommonComplete` give its meaning |
| Responders.Voters | src/chat_statistics/stats.py:91-99 | the `users` list: the author of each message whose truthy reply id is flagged, in message order |
| Responders.TopUsers | src/chat_statistics/stats.py:70-101 | the ranking of the voters of the flagged questions, cut to `top_n` |
| Corpus.Filter | src/chat_statistics/stats.py:121 | the tokens that are not stop words, in order; `Corpus.FilterMembers` and `Corpus.FilterAppend` give its meaning |
| Corpus.Join | src/chat_statistics/stats.py:122 | `' '.join`: the items with the separator between neighbours; `Corpus.JoinAppend` gives its meaning |
| Corpus.Contribution | src/chat_statistics/stats.py:119-122 | what one message adds to the text content: a space and its kept tokens joined by spaces when its text is a string, nothing otherwise |
| Corpus.TextContent | src/chat_statistics/stats.py:117-122 | the message contributions laid end to end; `Corpus.ContributionAt` gives each message's place in it |
| Corpus.IsControl | src/chat_statistics/stats.py:127-130 | the character class `[\u2069\u2066]`: exactly U+2066 and U+2069 |
| Corpus.StripControls | src/chat_statistics/stats.py:127-131 | the regular-expression `sub`: scanning left to right, each maximal run of U+2066/U+2069 becomes one space; `Corpus.StripControlsPerCharacter` gives an independent reading |
| Corpus.DeEmojify | src/chat_statistics/stats.py:126-131 | the control-run replacement followed by the opaque emoji replacement with a space |
| Corpus.ReshapeRound | src/chat_statistics/stats.py:136-137 | one round: reshape, then `deEmojify`, then display reordering |
| Corpus.ReshapeRounds | src/chat_statistics/stats.py:135-137 | `k` rounds applied one after the other; `GenerateWordCloud` uses two |
| Transcript.ConcatAppend | src/chat_statistics/stats.py:117-122 | the strings of two lists laid end to end are the two concatenations laid end to end |

## Left out

- Malformed records are not modelled. In the source, a message without `text` (stats.py:80, 119), a question-bearing message without `id` (stats.py:88) and a voting message without `from` (stats.py:99) raise `KeyError`, and a fragment that is neither a string nor a container raises `TypeError` at `'text' in sub_msg` (stats.py:49). `Msg` and `Fragment` always carry these fields and have only the two fragment forms, so records of these kinds cannot be represented.
- Loading the transcript from JSON and the stop words from a file in `__init__` (lines 21-38) is not modelled. The constructor takes the messages, the already normalised stop words and the collaborators as parameters.
- Logging (loguru) is not modelled: it has no effect on the results.
- The language library's segmenter, tokeniser and normaliser, the reshaper, the display reordering and `demoji.replace` are opaque. They are `Toolkit` function values, and nothing is assumed about them beyond being total functions. Properties that need more state that dependency as a hypothesis, for example `Questions.QuestionIffMarker`.
- The `WordCloud` rendering and the file it writes (lines 141-151) are not modelled, and neither are the parameters used only by the renderer (`ouput_dir`, `width`, `height`, `max_font_size`, `background_color`). `GenerateWordCloud` stops at the string handed to the renderer.
- The `__main__` block (lines 153-159) is a script driver that prints to the console; it is not modelled.
- Stats.ChatStatistics.CollectResponders: the `is_question[...]` lookup of the `defaultdict` inserts a `False` entry for a missing key. The dictionary is discarded when `get_top_users` returns, so the model uses a read-only lookup.
- Stats.ChatStatistics.MsgHasQuestion: the source returns `True` or falls off the end returning `None`. The model returns `true` or `false`.
- Stats.ChatStatistics.GetTopUsers: the source returns `dict(...)` of the pairs. The model returns the ordered list of pairs. The authors are distinct (`Ranking.MostCommonCounts`), so the dictionary holds the same pairs in the same insertion order.
- Stats.ChatStatistics.GetTopUsers: `top_n` is an unbounded integer. Python's `Counter` also accepts `None`; that case is not modelled because the method's signature and its default are an `int`.
- Ranking.MostCommon: `heapq.nlargest`'s heap algorithm is replaced by a stable insertion sort followed by a cut. They select and order the same entries, including the first-vote order among equal counts. The heap itself is not modelled.
- Character-level details of the regular expression engine beyond the character class `[\u2069\u2066]+` are not modelled. Emoji replacement is left to the opaque `demojiReplace`.
