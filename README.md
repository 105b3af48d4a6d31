# weird_text in Dafny

A model of the WeirdText codec (`weird_text.py`). `encode_text` splits a text
on single spaces. In every chunk it shuffles the interior of each `\w+` token
longer than three characters, unless that interior is one repeated
character. Every shuffled token is recorded in a keychain. The output is

    \n---weird---\n<shuffled text>\n---weird---\n<sorted keychain, space-joined>

`decode_text` finds the two parts with the DOTALL pattern
`---weird---\n(.*)\n---weird---(.*)` and rebuilds the keychain with
`[key.strip() for key in keys.split(' ')]`. It then replaces every token of
the body by the first keychain entry made of the same characters, popping
that entry. When no entry matches, the token is kept.

The project has four modules:

- `PyStr` (`pystr.dfy`): the parts of `str.split`, `str.join`,
  `str.strip` and `sorted` that the codec uses.
- `Tokens` (`tokens.dfy`): the `\w+` tokenisation behind
  `re.sub(r'\w+', f, chunk)`. A chunk is cut into maximal runs of word
  characters and of other characters.
- `Weird` (`weird_text.dfy`):
  - `same`, modelled as a character counter.
  - The class `WeirdText`, with its keychain `encodedWords` as a
    mutable field.
  - `encode_text` and `decode_text` as loops over the chunks.
  - `_get_text` as a leftmost-first, greedy search.
  - `decode_text` as a function, `Decoding`.
- `RoundTrip` (`round_trip.dfy`): what decoding an encoded text gives back.
  - If no two different tokens of the text are anagrams of each other, it
    gives the text back, whatever the random shuffles were. This condition
    is enough, but it is not needed: "abcd acbd" always comes back.
  - When two tokens are anagrams, they can change places. Encoding and then
    decoding "acbd abcd" always gives "abcd acbd".
  - A token the shuffle keeps can take the key of a shuffled anagram.
    Encoding and then decoding "aaab abaa" always gives "abaa aaba".

The random shuffle with its retry loop (`while True: shuffle(inside) …`) is a
nondeterministic choice (`:|`). It picks any permutation of the interior that
changes the word. `ShuffleExists` proves that such a permutation exists
whenever the code reaches the loop, so the choice is always possible.
The `WeirdTextDecodingException` is the error value `Err(NotFormattedCorrectly)`.

Two facts about `_get_text` decide what decoding reads:

- The greedy `(.*)` runs from the first `---weird---\n` to the LAST
  `\n---weird---` after it, not to the next one (`GetText`,
  `GetTextSearch`).
- Group 2 starts right after `\n---weird---`, so the keys part keeps the
  boundary's final `"\n"` (`GetTextOfWrapped`). `decode_text` strips every
  key, which removes it again (`KeychainOfJoin`).

`RoundTrip` is proved for texts with no two different tokens that are
anagrams, counting the tokens the shuffle keeps. That condition is
sufficient, not necessary, and it cannot be weakened to the shuffled tokens
alone:

- A token that stays as it is (such as "aaab") is still looked up in the
  keychain, so it can take the key of a shuffled anagram ("abaa") written
  for another token (`FixedTokenCaptured`).
- Two four-character tokens, each the only shuffle of the other, trade
  places when the second one sorts first ("acbd abcd", `PairSwaps`). In the
  mirrored order they trade places twice and the text comes back
  ("abcd acbd", `PairComesBack`).

## Model

| member | source | states |
|---|---|---|
| Weird.Counter | weird_text.py:14 | `Counter(list(w))`, built one character at a time. `CounterCounts` states that it has an entry for exactly the characters of `w`, each with its number of occurrences |
| Weird.CounterCounts | weird_text.py:14 | the counter of `w` holds exactly the characters of `w`, each mapped to its number of occurrences |
| Weird.CounterEqual | weird_text.py:14 | two words have equal `Counter`s exactly when they have equal multisets of characters |
| Weird.Same | weird_text.py:7-14 | `same(a, b)` holds exactly when `a` and `b` are anagrams (equal character multisets) |
| Weird.InteriorLetters | weird_text.py:120-122 | for a token longer than three, `len(set(inside)) == 1` holds exactly when the interior is one repeated character (the token is `Fixed`) |
| Weird.ShuffleExists | weird_text.py:123-128 | a token that reaches the retry loop has an interior permutation that changes it, so the loop can return |
| Weird.ShuffleOutcomeIsAnagram | weird_text.py:117-128 | whatever `_shuffle_inside` returns is an anagram of its token with the same length, first and last character |
| Weird.WeirdText.constructor | weird_text.py:27-28 | a new codec starts with an empty keychain |
| Weird.WeirdText.ShuffleInside | weird_text.py:109-128 | a short token, or one whose interior is one repeated character, comes back unchanged and the keychain is unchanged. Any other token comes back with the same ends, a permuted interior and a different value, and is appended to the keychain |
| Weird.FirstAnagram | weird_text.py:94-95 | the index found is the first keychain entry that is `same` as the token, or the keychain length when there is none |
| Weird.Unshuffle | weird_text.py:93-98 | the decoded token is an anagram of the input. When no entry matches, token and keychain stay. Otherwise the result is a keychain entry and exactly that one entry leaves the keychain |
| Weird.WeirdText.DeshuffleInside | weird_text.py:86-98 | returns and pops the first keychain entry that is `same` as the token, or returns the token and leaves the keychain when none is |
| Weird.WeirdText.EncodeWord | weird_text.py:100-107 | the result is an encoding of the chunk (every `\w+` run replaced by a shuffle outcome, the rest kept). The keychain grows by the chunk's shuffled tokens in order. Length and every non-word character keep their place |
| Weird.UnshuffleRuns | weird_text.py:84 | decoding a chunk's runs replaces each word run by an anagram and keeps every other run |
| Weird.WeirdText.DecodeWord | weird_text.py:78-84 | the result and the new keychain are those of `UnshuffleRuns` on the chunk's runs. Tokens become anagrams, length and non-word characters stay |
| Weird.UnshuffleChunksReshaped | weird_text.py:71-74 | decoding every chunk with one keychain reshapes each chunk only by replacing tokens with anagrams |
| Weird.EncodeText | weird_text.py:30-44 | the output wraps the space-join of some encoding of each chunk, followed by the sorted originals of all shuffled tokens |
| Weird.FindFirstSpec | weird_text.py:53-57 | the search for the opener finds an occurrence, and none lies before it |
| Weird.FindLastSpec | weird_text.py:53-57 | the search for the closer finds an occurrence, and none lies after it in range |
| Weird.GetTextSearch | weird_text.py:46-59 | `_get_text` succeeds exactly when the pattern matches somewhere. It then returns the groups of the match `re.search` reports: the leftmost start and, from it, the longest group 1 |
| Weird.DecodingFails | weird_text.py:56-59 | decoding fails with the format error exactly when the wrapper pattern matches nowhere in the text |
| Weird.DecodeText | weird_text.py:61-76 | the loop computes `Decoding`: the format error, or the space-join of every chunk decoded with the keychain read from the keys part |
| Weird.Originals | weird_text.py:127 | the keychain entries one chunk adds: its word runs that the shuffle changes, in order. `EncodeWord` states that the loop appends exactly these, and `OriginalsAreTokens` that they are non-fixed tokens of the chunk |
| Weird.OriginalsOf | weird_text.py:37-44 | the keychain `encode_text` accumulates over all chunks. `EncodeText` states that the loop builds it, and `OriginalsOfAreWords` that it holds only non-fixed tokens of the text |
| Weird.Wrap | weird_text.py:41-44 | the f-string of `encode_text`. `GetTextOfWrapped` states that `_get_text` reads the body back from it, with the keys part after a `"\n"` |
| Weird.StripAll | weird_text.py:70 | `[key.strip() for key in parts]` keeps one entry per part. `StripAllAt` states that entry `i` is the strip of part `i`, and `StripAllKeys` that the keys part of a wrapped text strips back to its tokens |
| Weird.Keychain | weird_text.py:70 | the keychain `decode_text` rebuilds from the keys part. `KeychainOfJoin` states that it reads back a written keychain of tokens |
| Weird.UnshuffleChunks | weird_text.py:71-76 | `decode_word` on each chunk in turn, threading the keychain, gives one decoded chunk per chunk. `UnshuffleChunksReshaped` and `UnshuffleChunksInverts` state what each chunk becomes |
| Weird.GetText | weird_text.py:46-59 | `_get_text`: the first opener, then the last closer after it. `GetTextSearch` states that this is the match `re.search` reports, and that it fails exactly when there is none |
| Weird.Decoding | weird_text.py:61-76 | `decode_text` as a value. `DecodingFails` states when it is the format error, and `RoundTrip` that it inverts encoding for anagram-free texts |
| PyStr.Join | weird_text.py:42 | `sep.join(parts)`. `Split` states that it undoes splitting, `SplitJoin` that splitting undoes it for separator-free parts, and `JoinChars` that it adds only the separator |
| PyStr.Split | weird_text.py:38 | `split(' ')` gives at least one piece, no piece holds a space, and joining the pieces gives the text back |
| PyStr.SplitJoin | weird_text.py:71 | splitting a space-join of space-free parts gives the parts back |
| PyStr.Strip | weird_text.py:70 | `strip()` returns a part of the key that neither starts nor ends with whitespace |
| PyStr.TrimStart | weird_text.py:70 | `lstrip` drops a leading whitespace run and nothing else |
| PyStr.TrimEnd | weird_text.py:70 | `rstrip` drops a trailing whitespace run and nothing else |
| PyStr.StripPadding | weird_text.py:70 | `strip` removes exactly the whitespace around a key that neither starts nor ends with whitespace |
| PyStr.Sort | weird_text.py:44 | `sorted` returns a permutation of the keychain in string order |
| Tokens.Tokenize | weird_text.py:107 | the runs `re.sub(r'\w+', ...)` walks through. `TokenizeSpec` and `TokenizeConcat` state that it is the only cut of the chunk into maximal runs |
| Tokens.RunLength | weird_text.py:107 | a run length covers one kind of character and stops at the first character of the other kind |
| Tokens.TokenizeSpec | weird_text.py:107 | the `\w+` cut of a chunk is a cut into maximal runs whose concatenation is the chunk |
| Tokens.TokenizeConcat | weird_text.py:84 | cutting the concatenation of maximal runs gives those runs back, so an encoded chunk re-tokenises into its own pieces |
| Tokens.ReshapedShape | weird_text.py:84 | replacing word runs by anagrams keeps the length, the character multiset and every non-word character's position, and the result cuts back into the new runs |
| RoundTrip.GetTextOfWrapped | weird_text.py:41-59 | `_get_text` on a wrapped body with a keys part free of newlines that does not start with `-` returns the body and the keys part with a leading newline |
| RoundTrip.KeychainOfJoin | weird_text.py:70 | reading back a written keychain of tokens gives that keychain, or `[""]` when it was empty |
| RoundTrip.EncodedKeepsEnds | tests.py:16-21 | encoding a non-empty chunk keeps its length, first and last character |
| RoundTrip.EncodedChunkNoSpace | weird_text.py:107 | encoding a chunk adds no space, so the body splits back into its chunks |
| RoundTrip.EncodingChanges | weird_text.py:123-128 | the encoded body differs from the text whenever some token gets shuffled, since an accepted shuffle differs from its token. This is a statement about the body, stronger than the assertion at tests.py:34 that the whole wrapped output differs |
| RoundTrip.UnshuffleChunksInverts | weird_text.py:71-76 | with an anagram-free vocabulary, decoding the encoded chunks with a keychain that holds their originals gives the chunks back |
| RoundTrip.WrappedKeys | weird_text.py:41-44 | the output of `encode_text` parses into its body and a keychain of the text's own tokens that holds all the originals |
| RoundTrip.RoundTrip | tests.py:28-29 | for every text whose tokens are pairwise non-anagrams (a sufficient condition, see `PairComesBack`), decoding any encoding of it gives the text back |
| RoundTrip.DecodeAfterEncode | tests.py:29 | `decode_text(encode_text(text)) == text` for anagram-free texts, whatever the shuffles |
| RoundTrip.OnlyShuffle | weird_text.py:118-128 | a four-character token with two different interior characters has exactly one shuffle: the swapped interior |
| RoundTrip.PairSwaps | weird_text.py:94-97 | for a pair of four-character tokens, each the only shuffle of the other, with the second sorting first: the text "a b" is not anagram-free and decodes to "b a" |
| RoundTrip.PairSwapsBack | weird_text.py:94-97 | encoding and decoding such a pair swaps its two tokens, whatever the shuffles |
| RoundTrip.EncodedFixed | weird_text.py:118-122 | a token the shuffle keeps has exactly one encoding: itself |
| RoundTrip.UnshuffleCaptured | weird_text.py:93-97 | with keychain "y", the body "x z" decodes to "y z" whenever `x` is a token made of the characters of `y` |
| RoundTrip.CapturedNotFree | weird_text.py:94-97 | a kept token and a shuffled anagram of it make the text not anagram-free, although only one of them is in the keychain |
| RoundTrip.FixedTokenCaptured | weird_text.py:94-97 | for a kept token `x` and a four-character anagram `y` of it that the shuffle changes, "x y" encodes only to "x y'" (`y'` the swap of `y`) and decodes to "y y'" |
| RoundTrip.CapturedBack | weird_text.py:94-97 | encoding and decoding such a text gives "y y'", whatever the shuffles |
| RoundTrip.FixedCapturedExample | weird_text.py:94-97 | encoding and decoding "aaab abaa" gives "abaa aaba", not the text |
| RoundTrip.AnagramsSwapExample | weird_text.py:94-97 | encoding and decoding "acbd abcd" gives "abcd acbd", not the text |
| RoundTrip.PairComesBack | weird_text.py:94-97 | for such a pair with the first token sorting first, the text "a b" is not anagram-free, yet every encoding of it decodes to "a b" |
| RoundTrip.PairKeptBack | weird_text.py:94-97 | encoding and decoding such a pair gives it back, whatever the shuffles |
| RoundTrip.AnagramsKeptExample | weird_text.py:94-97 | encoding and decoding "abcd acbd" gives "abcd acbd" |

## Left out

- Unicode: `\w` is ASCII letters, digits and `_`. The whitespace `str.strip`
  removes is ASCII whitespace plus the separators `\x1c`-`\x1f`. Non-ASCII
  word characters and non-ASCII whitespace are not modelled.
- Randomness: `random.shuffle` and the retry loop are a choice of any
  interior permutation that changes the word. The model does not capture how
  likely each shuffle is, or how many tries the loop takes.
- `WeirdTextDecodingException` is a `Result` value, not a raised exception.
  `_get_text` returns `Option`; the two `regex.search` calls are one search
  because they return the same match.
- `_get_text` escapes backslashes in the boundary with `replace`. The
  boundary holds none, so the pattern is modelled directly as `Opener`, any
  text, `Closer`, any text.
- `sorted` is modelled as an insertion sort in Python's code-point order
  (`LexLe`). Stability is not modelled; equal strings cannot be told apart.
- RoundTrip.RoundTrip: is proved under the precondition that no two
  different tokens of the text are anagrams, kept tokens included. The
  precondition is sufficient, not necessary (`PairComesBack`). Texts that
  break it may or may not come back (`PairSwaps`, `FixedTokenCaptured`), and
  no exact condition for the round trip is stated. The repository's fixed
  test sentence is not instantiated.
- Weird.DecodingFails: states failure in terms of the pattern. The
  repository's concrete "---not weird---" test text is not instantiated.
- An empty keychain is written as an empty keys part and read back as
  `[""]` (`KeychainOfJoin`). This entry matches no token, since tokens are
  non-empty.
- The `TestTest.test_tests` self-check (tests.py:11-12) asserts nothing
  about the codec.
