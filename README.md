# Chroma Chipper, modelled in Dafny

Chroma Chipper is a bot that answers messages holding hex colour codes with an
image of "chips" in those colours. This project models its two pieces of
decision logic and proves properties of them:

- **Colour harvesting** (`get_colours_from_message`): every literal `0x` is
  rewritten to `#`, the text is split on `\n`, and each line is scanned for
  `#[0-9A-F]{6}|#[0-9A-F]{3}\b` (case-insensitive, leftmost, non-overlapping).
  Each match is normalised to `#rrggbb` as `normalize_hex` does: lower case, and
  a three-digit `#rgb` expanded by doubling each digit (section 4.2.1 of CSS
  Color Module Level 3). Lines without a match are dropped.
- **The stream listener** (`ChromachipStreamListener`): a status addressed to the
  bot that holds colours is answered. The mention list keeps, in order, every
  mentioned account other than the bot, as `@name`. The reply is
  `@user sent you a Chroma Chip! @a @b ...` when that list is non-empty and
  `@user <phrase>` otherwise, where the phrase is drawn from a fixed list and
  redrawn while it equals the previous phrase.

Files:

- `strings.dfy` (module `Strings`): the Python string built-ins the core uses
  (`str.replace`, `str.split`, `str.join`, `str.lower` on a character), with the
  split/join round trips.
- `chromachipper.dfy` (module `Chromachipper`): the regex scan as an explicit
  recursive scanner over positions (`MatchLen`, `MatchStarts`, `FindAll`),
  `NormalizeHex` specified by the RGB triple a token denotes, and
  `GetColoursFromMessage` as a method whose `for` loop appends one group for each
  line that has a match, proved equal to the specification function `Harvest`.
- `chromachipper_examples.dfy`: the expected outputs of the harvesting tests,
  derived from the model.
- `twitter.dfy` (module `Twitter`): the mention filter and the two reply shapes as
  functions, the phrase draw as the function `Pick`, and the class
  `ChromachipStreamListener` with the fields `lastReply` and `outbox`, whose
  methods `GetRandomReply`, `ReplyToStatus` and `OnStatus` change them.
- `twitter_examples.dfy`: the expected reply of the listener test with mentions,
  and a client that takes two replies in a row from one listener.

The random draw is a parameter: `draws` lists the indices that `random.choice`
would return, one per attempt. `HasFresh` says that some draw differs from the
previous phrase. It is required only on the path that draws a phrase. The source
redraws without bound, so it finishes only with probability one, and this
requirement is that assumption. The call to `api.update_with_media` is modelled
as appending a `Post` (reply text, id of the answered status, colour groups) to the
listener's `outbox` field.

Some descriptions of this bot mention a 140-character reply budget, with shorter
fallback phrasings when the budget is exceeded. The code at twitter.py:71-74 has
exactly two reply shapes and enforces no length limit. The model follows the code.
The same descriptions say a three-digit colour must not be followed by another hex
digit. The code's `\b` requires instead that it is not followed by a word character
`[A-Za-z0-9_]`, so `#abcg` is not a match. The model follows the code.

## Model

| member | source | states |
|---|---|---|
| `Strings.ReplaceAbsent` | chromachipper.py:71 | `str.replace` leaves a text unchanged when the pattern does not occur in it |
| `Strings.Replace` | chromachipper.py:71 | `str.replace` puts the replacement where the text starts with the pattern and keeps the first character otherwise; with `ReplaceAbsent` and `RewriteRemovesPrefix` it leaves a pattern-free text alone and leaves no `0x` behind |
| `Strings.Split` | chromachipper.py:72 | `str.split` returns at least one piece; no piece contains the separator; every character of a piece comes from the text |
| `Strings.SplitJoin` | chromachipper.py:72 | joining the pieces of a split with the separator gives the original text back |
| `Strings.Join` | twitter.py:72 | `" ".join` of one piece is that piece; `JoinSplit` shows the pieces can be read back by splitting |
| `Strings.JoinSplit` | twitter.py:72 | splitting a `" ".join` of pieces that hold no space gives the pieces back, in order |
| `Strings.Lower` | chromachipper.py:77 | the `lower()` inside `normalize_hex` maps `A`-`Z` to `a`-`z` letter for letter and leaves every other character alone |
| `Chromachipper.MatchLen` | chromachipper.py:64 | a match at a position has length 0, 4 or 7, fits in the line, and starts with `#` |
| `Chromachipper.MatchStarts` | chromachipper.py:64 | every reported position starts a match, and the reported matches are in increasing order and do not overlap |
| `Chromachipper.MatchStartsComplete` | chromachipper.py:64 | the scan misses nothing: every position where the pattern matches is reported or lies strictly inside an earlier reported match |
| `Chromachipper.FindAll` | chromachipper.py:75 | every string `findall` returns is `#` followed by three or six hex digits |
| `Chromachipper.NormalizeHex` | chromachipper.py:77 | the normalised colour is `#` and six lower-case hex digits, denotes the same RGB triple as the token (a `#rgb` channel is 17 times its digit), and has each digit of a three-digit token doubled |
| `Chromachipper.ColourUnique` | chromachipper.py:77 | two normalised colours that denote the same RGB triple are the same text, so the normal form is unique |
| `Chromachipper.NormalizeIdempotent` | chromachipper.py:77 | normalising a normalised colour changes nothing |
| `Chromachipper.NormalizeEach` | chromachipper.py:77 | the comprehension keeps the number and order of the matches and normalises each one to a colour denoting the same RGB triple |
| `Chromachipper.LineColours` | chromachipper.py:75-77 | one line's colours: as many as the line's matches, each a `#rrggbb` colour denoting the same RGB triple as its match |
| `Chromachipper.HarvestLines` | chromachipper.py:73-77 | the loop over the lines yields at most one group per line |
| `Chromachipper.HarvestLinesShape` | chromachipper.py:73-77 | there are at most as many groups as lines; no group is empty; every entry is `#` and six lower-case hex digits |
| `Chromachipper.GetColoursFromMessage` | chromachipper.py:64-78 | the loop's result equals `Harvest(message)`, has at most one group per `\n`-separated line, holds no empty group, and holds only normalised colours |
| `Chromachipper.Rewrite` | chromachipper.py:71 | after the rewrite no `0x` is left, and a text without `0x` is left as it is |
| `Chromachipper.Lines` | chromachipper.py:72 | the lines of the rewritten text: at least one, none holding `\n`, and joined with `\n` they give the rewritten text back |
| `Chromachipper.Harvest` | chromachipper.py:64-78 | the result of `get_colours_from_message`: at most one group per line; `HarvestLinesShape`, `HarvestKeepsOrder` and `NotationEquivalent` state the rest |
| `Chromachipper.RewriteRemovesPrefix` | chromachipper.py:71 | replacing every `0x` by `#` leaves no `0x`, for every text |
| `Chromachipper.NotationEquivalent` | chromachipper.py:70-71 | harvesting the text with every `0x` already replaced by `#` gives the same result as harvesting the original |
| `Chromachipper.NoMarkerNoMatch` | chromachipper.py:64 | no match starts in a stretch of a line without `#` |
| `Chromachipper.NoMarkerLines` | chromachipper.py:74-78 | lines without `#` give no groups |
| `Chromachipper.NoMarkerNoColours` | chromachipper.py:70-78 | a text containing neither `#` nor `0x` yields the empty list |
| `Chromachipper.HarvestKeepsOrder` | chromachipper.py:73-77 | the groups laid end to end are all colours of all lines, in line order and then match order: dropping match-less lines loses nothing and reorders nothing |
| `Chromachipper.HarvestSingleLine` | chromachipper.py:70-78 | a text without line break that the rewrite leaves alone yields one group when it has matches and none otherwise |
| `ChromachipperExamples.ThreeDigitColour` | tests.py:23-24 | `#0ef` yields `[["#00eeff"]]` |
| `ChromachipperExamples.ThreeDigitHexNotation` | tests.py:26-27 | `0x0ef` yields `[["#00eeff"]]` |
| `ChromachipperExamples.SixDigitColour` | tests.py:29-30 | `#663399` yields `[["#663399"]]`: the six-digit alternative is tried first |
| `ChromachipperExamples.FiveDigitNoColour` | chromachipper.py:64 | `#ff000` yields nothing: `#ff0` is followed by the word character `0` |
| `ChromachipperExamples.AdjacentColours` | tests.py:41-42 | `#d00#bar` yields `[["#dd0000"]]` |
| `Twitter.Mentions` | twitter.py:39 | the mention list is no longer than the mentions, and each handle is `@` and the screen name of a mention whose id is not the bot's |
| `Twitter.MentionsAppend` | twitter.py:39 | the mention list of a concatenation is the concatenation of the mention lists, so the original order is kept |
| `Twitter.MentionsEmpty` | twitter.py:39 | the mention list is empty if and only if every mention has the bot's id |
| `Twitter.MentionsAllOthers` | twitter.py:39 | when no mention is the bot, the k-th handle is `@` and the k-th screen name, for every k |
| `Twitter.MentionReply` | twitter.py:72 | the reply with mentions opens with `@user sent you a Chroma Chip! ` and is at least as long as that opening and the first handle; `MentionReplyRecovers` reads the handles back |
| `Twitter.PhraseReply` | twitter.py:74 | the reply without mentions opens with `@user ` and is that opening followed by as many characters as the phrase has; `PhraseReplyRecovers` reads the phrase back |
| `Twitter.MentionReplyRecovers` | twitter.py:71-72 | a mention reply starts with `@user sent you a Chroma Chip! `, and splitting the rest on spaces gives back the handles in order |
| `Twitter.PhraseReplyRecovers` | tests.py:118-119 | deleting every `@user ` from a reply with a stock phrase leaves exactly that phrase, since no stock phrase holds an `@` |
| `Twitter.PostedPhraseRecovers` | twitter.py:73-74 | the reply posted when nobody else is mentioned, with `@user ` deleted, is the drawn phrase: a stock phrase and not the previous one |
| `Twitter.PhrasesStartApart` | twitter.py:11-25 | no stock phrase is empty or starts with `s`, the first letter of the mention reply's connective |
| `Twitter.ShapesDiffer` | twitter.py:71-74 | a reply carrying a stock phrase is never equal to a reply listing mentions |
| `Twitter.HasFreshTail` | twitter.py:55-60 | when the first draw repeats the last phrase, the remaining draws still hold a fresh phrase |
| `Twitter.Pick` | twitter.py:51-60 | the phrase the draw settles on is one of `REPLIES` and differs from the previous phrase |
| `Twitter.FirstDrawAccepted` | twitter.py:31 | with no previous phrase, as after construction, the first draw is accepted |
| `Twitter.RepliesDistinct` | twitter.py:11-25 | the stock phrases are pairwise different, so identity and equality of phrases agree |
| `Twitter.TwoDifferentDrawsSuffice` | twitter.py:55-60 | draws holding two different indices always contain a phrase different from any previous phrase |
| `Twitter.ChromachipStreamListener.constructor` | twitter.py:27-31 | a new listener has the given bot id, no previous phrase, and has posted nothing |
| `Twitter.ChromachipStreamListener.GetRandomReply` | twitter.py:51-60 | returns a stock phrase that differs from the previous one, namely the first such draw, and records it as the previous phrase |
| `Twitter.ChromachipStreamListener.ReplyToStatus` | twitter.py:62-78 | with mentions, posts `@user sent you a Chroma Chip! ` and the joined mentions, leaving the previous phrase alone; without mentions, posts `@user ` and a freshly drawn phrase and records that phrase, and deleting `@user ` from the posted text leaves a stock phrase, the one recorded |
| `Twitter.ChromachipStreamListener.OnStatus` | twitter.py:33-41 | a reply is posted only for a status addressed to the bot whose text yields colours, and then in the shape its mention list calls for; otherwise nothing changes; the result is always true |
| `TwitterExamples.MentionsOfGift` | tests.py:94-98 | of the mentions `chromachipper` (the bot), `GiftToMe` and `GiftToMeToo`, the list keeps `@GiftToMe` and `@GiftToMeToo` in that order |
| `TwitterExamples.ReplyWithMentions` | tests.py:110-113 | the mention reply to `IWantToGive` is `@IWantToGive sent you a Chroma Chip! @GiftToMe @GiftToMeToo` |
| `TwitterExamples.ConsecutiveReplies` | twitter.py:51-60 | two phrases drawn in a row by one listener are stock phrases and differ; the first is the first draw |

## Left out

- `make_chromachip_png` (chromachipper.py:42-61): drawing the chip image uses floating-point geometry and the foreign `flat` and `webcolors.hex_to_rgb` libraries. A `Post` carries the colour groups the image is drawn from instead.
- The web routes `/test` and `/test_message` and `app.run` (chromachipper.py:12-39, 81-82): HTTP input and output.
- The streaming, OAuth and environment set-up (twitter.py:81-94): network and configuration.
- `on_error` and `on_timeout` (twitter.py:43-49): they only print and return `True`.
- The `StringIO` buffer and the `TweepError` handler in `reply_to_status` (twitter.py:66-70, 76-78): posting is modelled as always succeeding, by appending to `outbox`.
- `random.choice`: the draws are a parameter, not a random number generator.
- Twitter.ChromachipStreamListener.GetRandomReply: requires that some draw differs from the previous phrase. The source redraws without bound, and in CPython a long enough run of repeats would exhaust the recursion limit; neither case is modelled.
- Twitter.Mentions: a mention entry with a missing `id` or `screen_name` (which `dict.get` turns into `None`) is not modelled; every entry has an integer id and a screen name.
- `normalize_hex` raising `ValueError` on malformed input: every input it receives here is a match of the pattern, so that path cannot be reached.
- Unicode: `\b`, `re.I` and `lower` are modelled on ASCII, as Python 2's `re` behaves without the `UNICODE` flag.
