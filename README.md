# CooDX11 pigeon translator — a Dafny model

CooDX11 is a notepad that "translates" human text into pigeon and back. Its
core is four Python functions in `CooDX11.py`:

- `pigeon_sound` picks one of four interjections.
- `simplify_word` maps a word to one pigeon token by ordered keyword tests.
- `translate_to_pigeon` splits the text into words. It simplifies each word,
  maybe adds a bonus sound after it, and adds a separator after the fourth
  word and every third word after it (0-based positions 3, 6, 9, ...). It
  tops up short outputs with two more sounds, then space-joins the
  tokens.
- `reverse_translate_pigeon` lower-cases the text and rewrites two sounds to
  `coo!`. It splits the text into words and strips punctuation from each.
  Each word becomes one phrase. The reply is the phrases joined, capitalised
  and closed by a full stop.

The model has five modules, one per file:

- `PyStr` (`pystr.dfy`): the Python string built-ins the core relies on,
  over ASCII. They are `lower`, `capitalize`, substring `in`, `split()`,
  `" ".join`, `replace` and `strip(chars)`.
- `Pigeon` (`pigeon.dfy`): `pigeon_sound` and `simplify_word` as functions.
  The twelve keyword rules are kept as data, with each operand of an `or`
  chain either a substring test or a bare literal. A bare literal is always
  true in Python.
- `Forward` (`forward.dfy`): `translate_to_pigeon` as methods with a loop.
  They are proved equal to the specification function `PigeonTokens`, and
  the promised shape of the output is proved about that function.
- `Reverse` (`reverse.dfy`): `reverse_translate_pigeon` as methods with a
  loop. They are proved equal to a specification built on `TokenPhrase`, a
  table-free statement of the per-word phrase.
- `RoundTrip` (`roundtrip.dfy`): what the reverse translation makes of any
  output of the forward translation.

Randomness is an explicit input:

- `sound(k)` is the index that the k-th `random.choice` over the four sounds
  picks.
- `coin(k)` is the k-th outcome of `random.random() < p`.

Every run of the program corresponds to some pair of such streams.

Two facts about the code shape the model:

- The bare `"air"` operand on line 35 is always true. So `simplify_word`
  only returns `"Grain!"` (for a food word) or `"Sky!"`, and lines 37-57
  are unreachable.
- Every key of the reverse table ends in `!` or `?`, and the strip removes
  those characters. So the lookup on line 109 never succeeds.

The model keeps the dead code and proves it dead.

Rules 2 to 8 of `simplify_word` contain bare string operands (lines 35-48),
which are always true. The model keeps every rule with its operands exactly
as written.

## Model

| member | source | states |
|---|---|---|
| `Pigeon.RuleAt` | CooDX11.py:33-56 | definition: the twelve `if` conditions, each an `or` chain of substring tests and bare literals as written, with the token each returns; their meaning is stated by `Pigeon.FoodRule`, `Pigeon.SkyRuleAlwaysFires` and `Pigeon.OnlyFirstTwoRulesMatter` |
| `Pigeon.Holds` | CooDX11.py:33-56 | definition: Python truthiness of one `or` operand, `keyword in word` or a non-empty bare literal; used by `Pigeon.SkyRuleAlwaysFires` |
| `Pigeon.Fires` | CooDX11.py:33-56 | definition: an `or` chain is true when one of its operands is; used by `Pigeon.FoodRule` |
| `Pigeon.FirstRule` | CooDX11.py:33-57 | definition: the `if` cascade, giving the token of the first condition that holds, or none when the fallback is reached; its result is stated by `Pigeon.OnlyFirstTwoRulesMatter` |
| `Pigeon.SimplifiedToken` | CooDX11.py:32-36 | definition: the reference token, `Grain!` for a food word and `Sky!` otherwise, independent of the cascade; `Pigeon.SimplifyWord` is proved equal to it |
| `Pigeon.PigeonSound` | CooDX11.py:22-25 | the chosen interjection is one of `Coo!`, `Coo-coo!`, `Rrrruh...`, `Whirr!` |
| `Pigeon.SimplifyWord` | CooDX11.py:27-57 | the result is `Grain!` exactly when the lower-cased word contains `food`, `eat`, `seed` or `yum`, and `Sky!` exactly otherwise; it is never one of the four sounds and the fallback draw on line 57 never happens |
| `Pigeon.FoodRule` | CooDX11.py:32-34 | the first `or` chain is true exactly when the lower-cased word contains one of the four food keywords |
| `Pigeon.SkyRuleAlwaysFires` | CooDX11.py:35 | the bare `"air"` makes the second condition true for every word |
| `Pigeon.OnlyFirstTwoRulesMatter` | CooDX11.py:32-57 | the first rule that fires is always the first or the second, so the rules on lines 37-56 and the fallback on line 57 are unreachable |
| `Forward.WordStep` | CooDX11.py:71-82 | definition: what one iteration contributes and how many draws it consumes; `Forward.AppendWord` is proved to do exactly this and `Forward.RunShape` states its shape |
| `Forward.PigeonTokens` | CooDX11.py:64-85 | definition: the list joined on line 87, three sounds for no words and otherwise the loop's output topped up; its properties are `Forward.PigeonTokenCount`, `Forward.PigeonSeparatorCount`, `Forward.PigeonTokensTopUp`, `Forward.WordTokenAt` and `Forward.EmptyInput` |
| `Forward.TopUp` | CooDX11.py:84-85 | the top-up adds exactly two tokens, both sounds |
| `Forward.Run` | CooDX11.py:70-82 | the loop produces one contribution per input word |
| `Forward.RunShape` | CooDX11.py:70-82 | word `i` contributes its simplified token, at most one bonus sound, and a separator (`Flap-flurry!` or `...`) exactly when `i` is a positive multiple of 3 |
| `Forward.WordTokenAt` | CooDX11.py:70-85 | in the final output the simplified token of word `i` stands where word `i`'s contribution starts, before word `i + 1`'s token, so the tokens appear in input order; at most one bonus sound follows it |
| `Forward.ContributionAt` | CooDX11.py:70-82 | each word's contribution appears, unbroken, at its offset in `pigeon_output` |
| `Forward.OffsetStep` | CooDX11.py:70-82 | word `i + 1`'s contribution starts right after word `i`'s |
| `Forward.FlattenSplit` | CooDX11.py:70-82 | `pigeon_output` is the output for the first `i` words followed by the output for the rest |
| `Forward.RunLast` | CooDX11.py:70-82 | unfolding of `Run` and `Flatten` at the last word: the loop over `n` words is the loop over the first `n - 1` words followed by one more pass |
| `Forward.RunStep` | CooDX11.py:70-82 | unfolding of `Run` and `Flatten` one step on: the loop over the first `i + 1` words is the loop over the first `i` words followed by one pass for word `i` |
| `Forward.RunVocabulary` | CooDX11.py:70-82 | the loop emits only `Grain!`, `Sky!`, the four sounds and the two separators |
| `Forward.VocabularyAreWords` | CooDX11.py:70-85 | every token the translator can emit is non-empty and free of whitespace |
| `Forward.PigeonTokensVocabulary` | CooDX11.py:64-85 | every token of the output, top-up and empty case included, is such a word |
| `Forward.BodySize` | CooDX11.py:70-82 | with n ≥ 1 words the loop emits between n and 2n + (n-1) div 3 tokens |
| `Forward.PigeonTokenCount` | CooDX11.py:70-85 | with n ≥ 1 words the output has between max(n, 3) and 2n + (n-1) div 3 + 2 tokens |
| `Forward.PigeonTokensTopUp` | CooDX11.py:84-85 | unfolding of `PigeonTokens` for a non-empty input: with n ≥ 1 words the two extra sounds are appended exactly when the loop emitted fewer than five tokens |
| `Forward.SeparatorCountAppend` | CooDX11.py:78-82 | the separators of two concatenated token lists are the separators of each part added together |
| `Forward.SoundsCountNoSeparator` | CooDX11.py:76 | bonus sounds are never separators |
| `Forward.TokensSeparatorCount` | CooDX11.py:71-82 | one word's contribution holds one separator when its position is a positive multiple of 3 and none otherwise |
| `Forward.RunSeparatorCount` | CooDX11.py:70-82 | the loop emits exactly (n-1) div 3 separators for n ≥ 1 words |
| `Forward.PigeonSeparatorCount` | CooDX11.py:70-85 | the final output holds exactly (n-1) div 3 separators, so there are none beyond those after positive multiples of 3 |
| `Forward.EmptyInput` | CooDX11.py:64-68 | an input with no words gives exactly three sounds joined by single spaces |
| `Forward.AppendWord` | CooDX11.py:71-82 | one pass of the loop body appends exactly that word's contribution and advances the draws as the code does (including the guard draw on line 74, which always passes) |
| `Forward.TranslateWords` | CooDX11.py:65-82 | the loop leaves `pigeon_output` holding every word's contribution in input order |
| `Forward.TranslateToPigeon` | CooDX11.py:59-87 | the result is the space-join of `PigeonTokens`; the `replace("  ", " ").strip()` cleanup changes nothing; splitting the result gives the tokens back |
| `Reverse.CleanToken` | CooDX11.py:108 | definition: `word.strip(".,!?;:").lower()`; stated by `Reverse.CleanEnd` |
| `Reverse.TokenPhrase` | CooDX11.py:109-120 | definition: the phrase of one word without the table, whose lookup never succeeds; stated by `Reverse.TokenPhraseCases`, and `Reverse.WordPhrase` is proved equal to it |
| `Reverse.Normalise` | CooDX11.py:94-104 | definition: lower-casing, then `coo-coo!` and then `whirr!` replaced by `coo!`; stated by `Reverse.NormaliseJoin`, `Reverse.NoSoundPattern` and `Reverse.NoWordsIff` |
| `Reverse.ReverseTokens` | CooDX11.py:94-104 | definition: the words the loop visits, the split of the rewritten text |
| `Reverse.KeysEndStripped` | CooDX11.py:98-102 | every key of the table (the constant `Reverse.Mapping`, lines 98-102) ends in `!` or `?` |
| `Reverse.CleanEnd` | CooDX11.py:108 | a cleaned word never ends in one of `.,!?;:` |
| `Reverse.CleanNotMapped` | CooDX11.py:108-110 | no cleaned word is a key, so the lookup on line 109 never succeeds |
| `Reverse.TokenPhraseCases` | CooDX11.py:108-120 | a word's phrase is decided, in this order, by whether the cleaned word contains `coo`, `flurry`, `...` or `rrrruh`, and is `[unclear]` exactly when it contains none; no concept from the table comes out |
| `Reverse.Phrases` | CooDX11.py:106-120 | one phrase per word |
| `Reverse.PhrasesAt` | CooDX11.py:106-120 | the k-th phrase is the phrase of the k-th word |
| `Reverse.PhrasesStep` | CooDX11.py:106-120 | handling one more word appends that word's phrase |
| `Reverse.NoSoundPattern` | CooDX11.py:104 | text with neither `c` nor `w` is untouched by both rewrites |
| `Reverse.NoWordsIff` | CooDX11.py:94-104 | the rewritten text has no words exactly when the text as given has none |
| `Reverse.NormaliseAroundSpace` | CooDX11.py:94-104 | the lower-casing and the two rewrites act on either side of a space separately |
| `Reverse.NormaliseJoin` | CooDX11.py:94-104 | rewriting a space-joined text rewrites each of its parts |
| `Reverse.WordPhrase` | CooDX11.py:107-120 | the loop body gives exactly the table-free `TokenPhrase` of the word |
| `Reverse.ReverseTranslatePigeon` | CooDX11.py:89-122 | the result is the phrases of the words of the lower-cased, rewritten text, space-joined and capitalised, plus `.` |
| `Reverse.ReplyShape` | CooDX11.py:94-122 | the reply always ends in `.`; it is just `.` exactly when the text as given (equivalently, the rewritten text) has no words; otherwise its first character is the upper-cased first character of the joined phrases |
| `Reverse.JoinNonEmpty` | CooDX11.py:122 | a join of phrases is never empty |
| `RoundTrip.PigeonPhrase` | CooDX11.py:111-120 | each emitted token reads back as one of the fallback phrases and never as `pause` |
| `RoundTrip.PlainToken` | CooDX11.py:94-104 | a token whose lower-casing has neither `c` nor `w` is only lower-cased |
| `RoundTrip.LowerKeeps` | CooDX11.py:94 | text without capitals is unchanged by `lower()` |
| `RoundTrip.NormaliseCoo` | CooDX11.py:94-104 | `Coo!` becomes `coo!` |
| `RoundTrip.NormaliseCooCoo` | CooDX11.py:94-104 | `Coo-coo!` is rewritten to `coo!` |
| `RoundTrip.NormaliseWhirr` | CooDX11.py:94-104 | `Whirr!` is rewritten to `coo!` |
| `RoundTrip.NormaliseRrrruh` | CooDX11.py:94-104 | `Rrrruh...` becomes `rrrruh...` |
| `RoundTrip.NormaliseFlurry` | CooDX11.py:94-104 | `Flap-flurry!` becomes `flap-flurry!` |
| `RoundTrip.NormaliseGrain` | CooDX11.py:94-104 | `Grain!` becomes `grain!` |
| `RoundTrip.NormaliseEllipsis` | CooDX11.py:94-104 | `...` is unchanged |
| `RoundTrip.NormaliseSky` | CooDX11.py:94-104 | `Sky!` becomes `sky!` |
| `RoundTrip.CooPhrase` | CooDX11.py:108-112 | `coo!` reads back as "general observation" |
| `RoundTrip.RrrruhPhrase` | CooDX11.py:108-118 | `rrrruh...` loses its dots to the strip and reads back as "hesitation" |
| `RoundTrip.FlurryPhrase` | CooDX11.py:108-114 | `flap-flurry!` reads back as "activity" |
| `RoundTrip.EllipsisPhrase` | CooDX11.py:108-120 | a bare `...` is stripped to nothing, so it reads back as "[unclear]" and not as "pause" |
| `RoundTrip.GrainPhrase` | CooDX11.py:108-120 | `grain!` reads back as "[unclear]", not as the table's "food" |
| `RoundTrip.SkyPhrase` | CooDX11.py:108-120 | `sky!` reads back as "[unclear]", not as the table's "fly" |
| `RoundTrip.NormalFormWord` | CooDX11.py:104 | each rewritten vocabulary token is still a single word |
| `RoundTrip.CooToken` | CooDX11.py:94-120 | `Coo!` stays one word and reads back as `PigeonPhrase` says |
| `RoundTrip.CooCooToken` | CooDX11.py:94-120 | `Coo-coo!` stays one word and reads back as `PigeonPhrase` says |
| `RoundTrip.WhirrToken` | CooDX11.py:94-120 | `Whirr!` stays one word and reads back as `PigeonPhrase` says |
| `RoundTrip.RrrruhToken` | CooDX11.py:94-120 | `Rrrruh...` stays one word and reads back as `PigeonPhrase` says |
| `RoundTrip.FlurryToken` | CooDX11.py:94-120 | `Flap-flurry!` stays one word and reads back as `PigeonPhrase` says |
| `RoundTrip.EllipsisToken` | CooDX11.py:94-120 | `...` stays one word and reads back as `PigeonPhrase` says |
| `RoundTrip.GrainToken` | CooDX11.py:94-120 | `Grain!` stays one word and reads back as `PigeonPhrase` says |
| `RoundTrip.SkyToken` | CooDX11.py:94-120 | `Sky!` stays one word and reads back as `PigeonPhrase` says |
| `RoundTrip.SoundPhrase` | CooDX11.py:94-120 | each of the four sounds reads back as `PigeonPhrase` says |
| `RoundTrip.PlainPhrase` | CooDX11.py:94-120 | the separators and the word tokens read back as `PigeonPhrase` says |
| `RoundTrip.VocabularyPhrase` | CooDX11.py:94-120 | every emitted token stays one word after the rewriting and reads back as `PigeonPhrase` says |
| `RoundTrip.ReverseTokensOfJoin` | CooDX11.py:94-104 | rewriting and splitting a space-joined list of emitted tokens gives each token rewritten, one word per token |
| `RoundTrip.PhrasesOfTokens` | CooDX11.py:94-120 | a space-joined list of emitted tokens reads back as one phrase per token, in order |
| `RoundTrip.ReverseOfForward` | CooDX11.py:59-122 | reverse-translating any forward translation gives exactly one phrase per pigeon token, fixed by the token alone and one of the fallback phrases, never `pause` |
| `PyStr.IsSpace` | CooDX11.py:64 | definition: the ASCII characters `isspace()` accepts (tab to carriage return, 0x1C-0x1F, space), used by `split()` and `strip()`; stated through `PyStr.WordLen`, `PyStr.SplitEmptyIff` and `PyStr.JoinShape` |
| `PyStr.Lower` | CooDX11.py:94 | ASCII `lower()` of one character: the result is never a capital, and only a capital changes, into the letter whose upper case it is |
| `PyStr.Upper` | CooDX11.py:122 | ASCII upper-casing of one character: the result is never a lower-case letter, only a lower-case letter changes, and it changes into the capital whose lower case it is |
| `PyStr.UpperLower` | CooDX11.py:122 | `upper()` of a lower-case letter is undone by `lower()` |
| `PyStr.LowerStr` | CooDX11.py:32 | `lower()` keeps the length and lower-cases every character |
| `PyStr.Capitalize` | CooDX11.py:122 | `capitalize()` upper-cases the first character and lower-cases the rest |
| `PyStr.Contains` | CooDX11.py:33 | definition: `p in s` on strings, substring search; its meaning is `PyStr.ContainsIff` |
| `PyStr.ContainsIff` | CooDX11.py:33 | `p in s` holds exactly when `p` occurs in `s` at some position |
| `PyStr.ContainsAt` | CooDX11.py:111-118 | an occurrence at a position makes `p in s` true |
| `PyStr.ContainsMissingChar` | CooDX11.py:111-118 | a pattern holding a character that `s` lacks is not in `s` |
| `PyStr.WordLen` | CooDX11.py:64 | the length of the leading run of non-whitespace |
| `PyStr.Split` | CooDX11.py:64 | `split()` yields only non-empty, whitespace-free words |
| `PyStr.SplitEmptyIff` | CooDX11.py:64-67 | `split()` gives no words exactly when the text is all whitespace |
| `PyStr.SplitJoin` | CooDX11.py:87 | splitting a space-join of words gives the words back |
| `PyStr.Join` | CooDX11.py:87 | definition: `sep.join`, the separator between consecutive parts; its meaning is `PyStr.SplitJoin` and `PyStr.JoinShape` |
| `PyStr.JoinThree` | CooDX11.py:68 | the f-string of three sounds is their space-join |
| `PyStr.Replace` | CooDX11.py:104 | definition: `str.replace`, left-to-right and non-overlapping; stated by `PyStr.ReplaceAbsent`, `PyStr.ReplaceAroundSpace`, `PyStr.ReplaceNoDoubleSpace` and `PyStr.ReplaceAllSpace` |
| `PyStr.ReplaceAllSpace` | CooDX11.py:104 | replacing with text that starts with a non-space character never turns a text with a non-space character into pure whitespace |
| `PyStr.ReplaceAbsent` | CooDX11.py:104 | `replace` leaves a text without the pattern unchanged |
| `PyStr.ReplaceAroundSpace` | CooDX11.py:104 | `replace` of a space-free pattern works on either side of a space separately |
| `PyStr.ReplaceNoDoubleSpace` | CooDX11.py:87 | `replace("  ", " ")` leaves a text without double spaces unchanged |
| `PyStr.LowerAppend` | CooDX11.py:94 | `lower()` distributes over concatenation |
| `PyStr.JoinShape` | CooDX11.py:87 | a space-join of words has no double space and no whitespace at either end |
| `PyStr.CleanJoin` | CooDX11.py:87 | on a space-join of words, `replace("  ", " ").strip()` is the identity |
| `PyStr.Strip` | CooDX11.py:108 | `strip(chars)` leaves a result that neither starts nor ends with a stripped character |
| `PyStr.StripSlice` | CooDX11.py:108 | `strip(chars)` removes only stripped characters, and only from the two ends |
| `PyStr.StripBetween` | CooDX11.py:108 | `strip(chars)` of a text is the slice between its first and last kept characters |
| `PyStr.StripKeeps` | CooDX11.py:87 | a text that starts and ends with kept characters is unchanged by `strip` |
| `PyStr.SkipLeft` | CooDX11.py:108 | the left end of a strip is the first kept character |
| `PyStr.SkipRight` | CooDX11.py:108 | the right end of a strip is just after the last kept character |
| `PyStr.SkipLeftDropped` | CooDX11.py:108 | everything skipped on the left is a stripped character |
| `PyStr.SkipRightDropped` | CooDX11.py:108 | everything skipped on the right is a stripped character |
| `PyStr.SkipLeftAt` | CooDX11.py:108 | the left end is the first position not stripped |
| `PyStr.SkipRightAt` | CooDX11.py:108 | the right end is just after the last position not stripped |

## Left out

- The `CooDX11App` class (lines 127-355): the tkinter window, menus, dialogs,
  status bar, opening and saving documents (including python-docx), printing,
  settings and about boxes. These are user-interface and file I/O plumbing.
- `time.sleep` and `update_idletasks` in the translate handlers: timing and
  screen refresh only.
- `generate_just_pigeon`: a user-interface handler that joins random canned
  phrases.
- The `random` module: `random.choice` and `random.random() < p` are the
  oracle streams `sound` and `coin`. There is no model of the 0.7 and 0.5
  probabilities or of a real generator. Using two streams instead of one
  generator keeps every run of the program representable but does not
  reproduce how the draws interleave in one generator.
- Unicode: `lower`, `capitalize` and the whitespace set of `split()` are
  modelled on ASCII. Other characters pass through unchanged.
- `Forward.WordStep` uses the table-free `SimplifiedToken` for the token.
  `Pigeon.SimplifyWord` is proved equal to it, and `Forward.AppendWord`
  calls `SimplifyWord` itself.
- `Forward.TranslateToPigeon` and `Reverse.ReverseTranslatePigeon` are not
  composed as methods. Their composition is stated on the specification
  functions they are proved equal to, in `RoundTrip.ReverseOfForward`.
