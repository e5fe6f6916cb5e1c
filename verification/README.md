# Fence stripping of the ShowGrid scoring functions

The two callable endpoints in `functions/index.js`, `scoreImage` and
`scoreAudio`, send a submission to a hosted language model and pass its reply
to `JSON.parse`. Before that, each cleans markdown code fences off the reply,
and each does it differently. This project models the two cleanups as pure
functions over strings and proves how they behave.

- **Image path** (lines 55-60). The reply is trimmed. Three checks then run
  one after the other: a leading "```json" is cut off, then a leading "```",
  then a trailing "```". The result is trimmed again.
- **Audio path** (lines 115-118). The reply is trimmed. If it starts with
  "```", every match of the global pattern `/```json?|```/` is deleted,
  wherever it occurs. The result is trimmed again.

Modules:

- `Text` (`text.dfy`): ECMAScript `trim`, `startsWith`, `endsWith` and
  `substring`. `substring` clamps and swaps its arguments as the language
  does. `Trim` is proved to cut only whitespace from the two ends, and
  `TrimExact` pins down exactly which slice it returns.
- `Fences` (`fences.dfy`): the fence markers "```", "```json" and "```jso",
  and where they occur in a string.
- `Regex` (`regex.dfy`): a small denotation of ECMAScript patterns (literal,
  concatenation, disjunction, greedy `?`). It lists a pattern's match ends in
  backtracking order, which gives `/```json?|```/` its meaning independently
  of the scanner.
- `ImageFence` (`image_fence.dfy`): the image cleanup and its properties.
- `AudioFence` (`audio_fence.dfy`): the audio cleanup.
  - `Scan` is a left-to-right scanner that cuts the text into kept characters
    and deleted fence tokens.
  - `DeleteFences` drops each match and keeps every other character. It
    keeps exactly the characters the scan keeps.
  - `ReplaceAllFences` is an imperative loop that follows the global-replace
    algorithm of ECMA-262 using the `Regex` denotation. It is proved equal to
    `DeleteFences`.
- `FenceContrast` (`contrast.dfy`): concrete replies on which the two paths
  differ, each stated with the reply written out as a literal.

The code parses whatever text the cleanup leaves. There is no search for a
balanced `{...}` object, no check of required fields or score ranges, and no
merging of `overall_score` with `overallScore`, so the model has none of
them.

## Model

| member | source | states |
|---|---|---|
| Text.Trim | functions/index.js:55 | `trim` leaves no whitespace at either end, never makes the text longer, and returns the empty string exactly when the input is all whitespace |
| Text.TrimExact | functions/index.js:55 | any slice with only whitespace around it and no whitespace at its ends is exactly what `trim` returns |
| Text.TrimSlice | functions/index.js:55 | `trim` returns a contiguous slice of its input, and everything it cuts away is whitespace |
| Text.TrimIdempotent | functions/index.js:60 | trimming text that is already trimmed changes nothing |
| Text.TrimPadded | functions/index.js:55 | whitespace padding around a trimmed string is all that `trim` removes |
| Text.StartsWithMeaning | functions/index.js:56-57 | `startsWith` holds exactly when the prefix fits and matches the front character by character; a string built as prefix + rest starts with that prefix |
| Text.EndsWithMeaning | functions/index.js:58 | `endsWith` holds exactly when the suffix fits and matches the back character by character; a string built as rest + suffix ends with that suffix |
| Text.Substring | functions/index.js:58 | `substring(start, end)` is the exact slice when its arguments are in range, the swapped slice when they are reversed, and never longer than the string |
| Text.SubstringFrom | functions/index.js:56-57 | `substring(start)` is the suffix from `start` when `start` is in range, and empty past the end |
| ImageFence.DropJsonOpening | functions/index.js:56 | a leading "```json" is cut off; the content is that tag followed by the result; any other content is unchanged |
| ImageFence.DropOpening | functions/index.js:57 | a leading "```" is cut off; the content is that fence followed by the result; any other content is unchanged |
| ImageFence.DropClosing | functions/index.js:58 | a trailing "```" is cut off with an in-range `substring`, so the content is the result followed by the fence; any other content is unchanged |
| ImageFence.ImageBody | functions/index.js:56-58 | the three checks in source order never lengthen the content (`ImageBodySlice` gives the exact slice they cut) |
| ImageFence.StripImageFence | functions/index.js:55-60 | the text given to `JSON.parse` has no whitespace at its ends and is no longer than the trimmed reply |
| ImageFence.ImageBodySlice | functions/index.js:56-58 | the three checks cut a contiguous slice: 0, 3, 7 or 10 characters from the front and 0 or 3 from the back. 10 is cut exactly when "```json```" opens the content, and 3 from the back exactly when the rest still ends with a fence |
| ImageFence.ImageUnfencedIsTrim | functions/index.js:55-60 | a reply that, once trimmed, neither starts nor ends with "```" reaches `JSON.parse` as the trimmed reply |
| ImageFence.ImageFencedRoundTrip | functions/index.js:55-60 | "```json" + body + "```", with any whitespace around it, yields the trimmed body when the body does not start with a backtick |
| ImageFence.ImageDoubleOpening | functions/index.js:56-58 | the checks run in sequence, so "```json```" at the front loses both openings; then at most one closing fence goes |
| ImageFence.ImageBareOpening | functions/index.js:56-58 | an untagged "```" opening is removed too; then at most one closing fence goes |
| ImageFence.ImageClosingOnce | functions/index.js:56-58 | only one closing fence is removed: a reply that does not open with a fence and ends in two fences still ends in a fence when it reaches `JSON.parse` |
| ImageFence.ImageTaggedClosingOnce | functions/index.js:56-58 | after a "```json" opening that is not directly followed by another fence, a reply ending in two fences loses the opening and one closing fence, and the other closing fence reaches `JSON.parse` |
| ImageFence.ImageBareClosingOnce | functions/index.js:56-58 | after an untagged "```" opening, a reply ending in two further fences loses the opening and one closing fence, and the other reaches `JSON.parse` |
| AudioFence.FenceMatchLength | functions/index.js:116 | one match attempt of the pattern at the front of the text never reaches past its end (`FenceMatchMeaning` and `PatternAgreesWithScanner` say what it matches) |
| AudioFence.FenceMatchMeaning | functions/index.js:116 | the scanner's step matches exactly when the text starts with "```", takes the tag exactly when "```jso" follows, and takes the `n` exactly when one comes next; what it matches is "```", "```jso" or "```json" |
| AudioFence.PatternAgreesWithScanner | functions/index.js:116 | at every position of every string, the scanner's step agrees with the backtracking meaning of `/```json?|```/`: same success, same match end |
| AudioFence.Scan | functions/index.js:116 | the scan cuts the text into kept characters and deleted tokens that reassemble to the input, so matches do not overlap and nothing is reordered; every deleted token is a fence token |
| AudioFence.DeleteFences | functions/index.js:116 | the global replace never lengthens the text (`ScanDeletes`, `ReplaceAllFences` and `DeleteFencesIdentityIff` say what it keeps) |
| AudioFence.ScanDeletes | functions/index.js:116 | the global replace keeps exactly the characters the scan keeps |
| AudioFence.DeleteFencesIsSubsequence | functions/index.js:116 | the result of the global replace is its input with some characters left out |
| AudioFence.ExecFence | functions/index.js:116 | one match attempt of the pattern succeeds exactly when the scanner's step matches, and ends where that step ends |
| AudioFence.ReplaceAllFences | functions/index.js:116 | ECMAScript's global replace loop, driven by the pattern's own meaning, computes the same text as the recursive scan |
| AudioFence.DeletedFenceFree | functions/index.js:116 | after the replace, no three backticks in a row remain anywhere in the text |
| AudioFence.DeleteFencesIdentityIff | functions/index.js:116 | the replace changes a string exactly when three backticks occur in it somewhere |
| AudioFence.PlainPrefixKept | functions/index.js:116 | text without backticks passes through the replace unchanged and does not affect how the rest is treated |
| AudioFence.StripAudioFence | functions/index.js:115-118 | the text given to `JSON.parse` has no whitespace at its ends, is no longer than the trimmed reply, and has no three backticks in a row when the deletion ran |
| AudioFence.AudioStripShape | functions/index.js:115-118 | the result is the trimmed reply cut into kept characters and deleted fence tokens, with only the kept ones retained, then trimmed; nothing is deleted when the trimmed reply does not start with "```" |
| AudioFence.AudioUnfencedIsTrim | functions/index.js:115-118 | a reply whose trimmed text does not start with "```" reaches `JSON.parse` as the trimmed text, even if fences occur later in it |
| AudioFence.AudioIdempotent | functions/index.js:115-118 | applying the audio cleanup to its own output changes nothing |
| AudioFence.AudioFencedRoundTrip | functions/index.js:115-118 | "```json" + body + "```", with any whitespace around it, yields the trimmed body when the body has no backtick |
| FenceContrast.AudioMidTextFence | functions/index.js:116 | "```json{a}```b```" becomes "{a}b" on the audio path: the fence in the middle is deleted too |
| FenceContrast.ImageMidTextFence | functions/index.js:56-58 | the same reply becomes "{a}```b" on the image path: the inner fence reaches `JSON.parse` |
| FenceContrast.AudioJsoTag | functions/index.js:116 | `json?` makes only the `n` optional, so "```jso{}" becomes "{}" |
| FenceContrast.AudioJsTag | functions/index.js:116 | "```js{}" is not matched by the tagged alternative and becomes "js{}" |
| FenceContrast.ImageOverlappingFences | functions/index.js:57-58 | when the opening check takes one of two closing fences, none survives: "``````" becomes "" on the image path |
| FenceContrast.ImageNotIdempotent | functions/index.js:56-58 | unlike the audio path, the image cleanup is not idempotent: "```json``````{}" becomes "```{}", which a second pass turns into "{}" |

## Left out

- The callable wrapper and the authentication checks (functions/index.js:7-10, 76-79) are transport framework code.
- The API-key lookup (functions/index.js:14-17, 82-86) reads the environment.
- Prompt building (functions/index.js:20-36, 89-96) is plain string interpolation.
- The HTTP call to the model and the reading of its response (functions/index.js:38-53, 98-113) are network I/O. The model starts from the reply text.
- `JSON.parse` (functions/index.js:60, 118) is a library call. The model ends with the text it receives.
- The Firestore log write (functions/index.js:62-67) is external storage.
- Error wrapping and console logging (functions/index.js:70-73, 119-122) are I/O.
- Strings are sequences of Unicode code points, while ECMAScript strings are UTF-16 code units. All fence markers are ASCII, so matching and slicing agree.
- `Text.IsWhitespace` lists ECMAScript's WhiteSpace and LineTerminator characters. The proofs about the fence cleanups only use the fact that backticks and the few visible characters in the examples are not whitespace.
- ImageFence.ImageClosingOnce and its tagged and bare variants cover replies whose opening checks leave the two closing fences alone. When an opening overlaps them, as in "``````", no fence survives; `FenceContrast.ImageOverlappingFences` shows that case.
