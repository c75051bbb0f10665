# Hailstone codec, modelled in Dafny

`hailstone.py` is a toy cipher. `encrypt(msg, key)` turns the upper-cased message into a comma-separated list of integers:

- A character that is not an upper-case letter becomes its negated code.
- A letter becomes `collatz_process(l_pos + 101, k_val - 64) * 1000 + (l_pos + k_val)`. Here `l_pos` is the letter's position 1..26 and `k_val` is the code of the key letter under a cursor that moves only on letters.
- The list ends with the fence `999999` followed by the codes of the normalised key.

`encrypt` also reports a "BiEntropy" score of the message tokens. It is a weighted mean of the Shannon entropies of the token bit string and of its successive binary derivatives.

`decrypt(cipher_str)` parses the list and splits it at the first fence. It rebuilds the key from the tail and replays the key cursor to recover each letter from `val % 1000 - k_val`. It turns malformed input into fixed error pairs.

The Dafny modules follow that structure:

- `Options`: the `Option` type.
- `Decimal`: `str` and `int()` on integers, as used by `",".join(map(str, ...))` and by the parser of `decrypt`.
- `Wire`: splitting on commas, `strip()`, dropping blank fields, joining.
- `Chaos`: `collatz_process`, as a function and as the source's loop.
- `BiEntropy`: `shannon_entropy`, `binary_derivative` and `calculate_bientropy`.
- `Codec`: `encrypt` and `decrypt` are methods with the source's loops, proved equal to the functions `Encode` and `Decode`; key normalisation is the function `NormalizeKey`.

The central result is `Codec.RoundTrip`: `Decode(Encode(msg, key)) == (Upper(msg), NormalizeKey(key))`. The method contracts of `Codec.Encrypt` and `Codec.Decrypt` carry it over to the loops.

`decrypt` drops blank fields before it looks for the fence, so empty, all-blank and comma-only input give the missing-fence error (`Codec.DecodeBlank`).

Letter tokens can exceed 999999, because the Collatz part is multiplied by 1000. They never equal it, because their last three digits lie in 66..116 (`Codec.CharTokenShape`, `Codec.TokensAvoidFence`).

## Model

| member | source | states |
|---|---|---|
| Codec.Upper | hailstone.py:37 | `str.upper()` on ASCII: same length, each character upper-cased in place |
| Codec.UpperCharFacts | hailstone.py:39 | after upper-casing no `a`..`z` is left, upper-case letters are kept, and the result is a letter exactly when the input was a letter of either case |
| Codec.Letters | hailstone.py:37 | the `[^A-Z]` filter keeps only `A`..`Z` and never lengthens the string |
| Codec.LettersAppend | hailstone.py:37 | the filter distributes over concatenation |
| Codec.LettersKeep | hailstone.py:37 | a string of letters passes the filter unchanged |
| Codec.LettersDrop | hailstone.py:37 | a string without letters filters to nothing, so the filter is the in-order subsequence of letters |
| Codec.NormalizeKey | hailstone.py:37 | the normalised key is non-empty and all `A`..`Z`; the definition takes the filtered upper-cased key, or `"KEY"` when that is empty, and the `Letters` lemmas and `DefaultKeyFallback` characterise it |
| Codec.DefaultKeyFallback | hailstone.py:37 | a key with no ASCII letter of either case normalises to `"KEY"` |
| Codec.NormalizeKeyIdempotent | hailstone.py:37 | normalising an already normalised key changes nothing |
| Codec.ExampleDigitKey | hailstone.py:37 | `"123"` normalises to `"KEY"` |
| Codec.ExampleLowerKey | hailstone.py:37 | `"key"` normalises to `"KEY"` |
| Codec.Fence | hailstone.py:50 | no contract; the sentinel 999999 that `encrypt` appends and `decrypt` looks for (lines 57 and 59) |
| Codec.DefaultKey | hailstone.py:37 | no contract; the fallback key `"KEY"` |
| Codec.MissingFence | hailstone.py:58 | no contract; the pair `("ERROR: Key Fence (999999) missing.", "N/A")` |
| Codec.InvalidFormat | hailstone.py:73 | no contract; the pair `("ERROR: Invalid ciphertext format.", "N/A")` |
| Codec.IsLetter | hailstone.py:41 | no contract; defines the letter test, code 65..90: the class `[A-Z]` of line 37 and the negation of `code < 65 or code > 90` |
| Codec.UpperChar | hailstone.py:37-39 | no contract; defines ASCII upper-casing of one character |
| Codec.Position | hailstone.py:44 | no contract; defines `l_pos = code - 64`, the position that `chr(l_pos + 64)` at line 69 inverts |
| Codec.LetterToken | hailstone.py:44-47 | a letter token is positive, its value mod 1000 is `l_pos + k_val` in 66..116, and it is never 999999 |
| Codec.CharToken | hailstone.py:40-47 | no contract; defines the token of one character with the cursor at `kPos`: `-code` for a non-letter, the letter token under `key[kPos % len(key)]` otherwise |
| Codec.CharTokenShape | hailstone.py:40-47 | a non-letter gives `-code`, and the token is positive exactly for letters; a letter token mod 1000 is its position plus the code of the key letter at `k_pos % len(key)`; no token is the fence |
| Codec.LetterCount | hailstone.py:48 | the cursor after a text, the number of its letters, is at most its length |
| Codec.MessageTokens | hailstone.py:39-48 | one token per character of the upper-cased message |
| Codec.MessageTokenAt | hailstone.py:39-48 | token `j` is the token of character `j` with the cursor at the number of letters before it |
| Codec.TokensStep | hailstone.py:41-48 | one more character appends exactly its token, and the cursor moves exactly on a letter (non-letters `continue` first) |
| Codec.LetterTokenOfLoop | hailstone.py:44-47 | bridging step, an unfolding of `CharToken`: the loop's arithmetic for one letter is the letter's token |
| Codec.KeyCodes | hailstone.py:51 | one code per key character |
| Codec.Frame | hailstone.py:49-51 | no contract; defines the full list: message tokens, the fence, the key codes |
| Codec.Encode | hailstone.py:36-52 | no contract; defines the text `encrypt` returns, the comma-joined frame of the upper-cased message under the normalised key |
| Codec.Encrypt | hailstone.py:36-52 | the returned text is `Encode(msg, key)`: the message tokens, the fence, the key codes, comma-joined; the score is `Score` of the message tokens only, taken before the fence is appended, and lies in [0, 1] |
| Codec.TokensAvoidFence | hailstone.py:40-50 | no message token equals 999999 |
| Codec.FrameLayout | hailstone.py:49-61 | in the encrypted list the first fence is the appended one, preceded by exactly the message tokens and followed by exactly the key codes |
| Codec.FirstIndex | hailstone.py:59 | `data.index(999999)` names a position holding the fence |
| Codec.FirstIndexIsFirst | hailstone.py:59 | no fence stands before that position |
| Codec.IsCharCode | hailstone.py:61 | no contract; defines the integers `chr` accepts, less the surrogates 0xD800–0xDFFF (see Left out) |
| Codec.KeyFromCodes | hailstone.py:61 | no contract; defines the key rebuilt with `chr`, `None` when some code is no character |
| Codec.KeyFromCodesFacts | hailstone.py:61 | the key is rebuilt exactly when every code is a character, and its codes are then the given ones |
| Codec.KeyCodesRoundTrip | hailstone.py:51-61 | rebuilding the key from its own codes gives the key back |
| Codec.TokenDecodable | hailstone.py:64-67 | no contract; defines when a token does not raise: `chr(abs(val))` accepts a non-positive one, and a positive one needs a non-empty key for `k_pos % len(key)` |
| Codec.PositiveCount | hailstone.py:70 | the cursor of `decrypt`, the number of positive tokens, is at most the number of tokens |
| Codec.DecodeChar | hailstone.py:64-69 | no contract; defines one decoded character: `chr(abs(val))` for a non-positive token, the letter at `val % 1000 - k_val` or `?` for a positive one |
| Codec.DecodeCharShape | hailstone.py:64-69 | a non-positive token gives the character `abs(val)` whatever the key; a positive one gives the letter at position `val % 1000 - k_val` when that lies in 1..26, and `?` otherwise |
| Codec.DecodeTokens | hailstone.py:62-71 | decoding yields one character per token |
| Codec.DecodeTokensDefined | hailstone.py:63-72 | decoding fails exactly when some token raises: `chr` of a non-character, or a positive token with an empty key |
| Codec.DecodeTokenAt | hailstone.py:63-70 | character `j` is decoded from token `j` with the cursor at the number of positive tokens before it, which moves even when the letter is `?` |
| Codec.DecodeStep | hailstone.py:63-70 | one more decodable token appends exactly its character, and the cursor moves exactly on a positive token |
| Codec.DecodeValues | hailstone.py:62-71 | the decoding loop returns what `DecodeTokens` specifies, `None` where the source raises |
| Codec.DecodeOfParts | hailstone.py:59-73 | bridging step, an unfolding of `Decode`: once the key is rebuilt, `decrypt` returns the decoded tokens with the key, or the invalid-format pair when decoding raises |
| Codec.Decode | hailstone.py:54-73 | no contract; defines what `decrypt` returns, in the source's order of checks: parse failure, missing fence, key rebuild failure, token failure, success |
| Codec.Decrypt | hailstone.py:54-73 | the method returns `Decode(cipher_str)`: the invalid-format pair on a parse failure, the missing-fence pair without a fence, and otherwise the decoded text and the key, or the invalid-format pair when rebuilding the key or a token raises |
| Codec.CursorLockstep | hailstone.py:42-70 | over a message's tokens the decrypt cursor (positive tokens) equals the encrypt cursor (letters) |
| Codec.DecodeMessageTokens | hailstone.py:39-70 | decoding a message's tokens under the same key gives the message back |
| Codec.RoundTrip | hailstone.py:36-71 | `decrypt(encrypt(msg, key)[0])` is the upper-cased message and the normalised key |
| Codec.DecodeBlank | hailstone.py:56-58 | empty, blank or comma-only input reports the fence missing |
| Codec.DecodeWithoutFence | hailstone.py:57-58 | a list of integers without 999999 reports the fence missing |
| Codec.DecodeMalformed | hailstone.py:56-73 | a non-blank field that is not an integer gives the invalid-format pair |
| Codec.DecodeBadKey | hailstone.py:61-73 | a key code after the fence that is no character gives the invalid-format pair |
| Codec.DecodeBadToken | hailstone.py:64-73 | a token that raises under the rebuilt key, such as a positive token with an empty key tail, gives the invalid-format pair |
| Codec.ExampleMissingFence | hailstone.py:57-58 | `"1,2,3"` reports the fence missing |
| Codec.ExampleMalformed | hailstone.py:56-73 | `"abc,def"` is invalid |
| Chaos.Step | hailstone.py:33 | no contract; defines one step, `n // 2` for even `n` and `3 * n + 1` otherwise |
| Chaos.Iterate | hailstone.py:33 | no contract; defines `k` unconditional steps, the reference for `CollatzAsIteration` |
| Chaos.Collatz | hailstone.py:30-34 | no contract; defines what `collatz_process` returns: at most `depth` steps, stopping once the value is at most 1 |
| Chaos.CollatzProcess | hailstone.py:30-34 | the loop with its early `break` returns `Collatz(n, depth)` |
| Chaos.StepAboveOne | hailstone.py:33 | a step from a value above 1 stays at least 1 |
| Chaos.CollatzPositive | hailstone.py:30-34 | from a positive start the result is positive |
| Chaos.CollatzAsIteration | hailstone.py:30-34 | the result is the plain step iteration cut after `k <= max(depth, 0)` steps, with every earlier value above 1 and an early cut only at a value of at most 1 |
| BiEntropy.Ones | hailstone.py:8 | the count of `1`s is at most the length |
| BiEntropy.Pow2 | hailstone.py:22 | every weight `2**k` is at least 1 |
| BiEntropy.Derivative | hailstone.py:25 | no contract; defines the `k`-th binary derivative |
| BiEntropy.WeightedTotal | hailstone.py:20-25 | no contract; defines the total entropy after `k` rounds, each derivative's entropy times `2**k` |
| BiEntropy.Min | hailstone.py:21 | no contract; defines `min` |
| BiEntropy.Rounds | hailstone.py:21 | no contract; defines the round count `min(n - 1, 32)` |
| BiEntropy.Mean | hailstone.py:27 | no contract; defines `total_entropy / weight_sum if weight_sum > 0 else 0` |
| BiEntropy.Score | hailstone.py:16-27 | no contract; defines what `calculate_bientropy` returns: 0 for fewer than two bits, otherwise the weighted mean over `Rounds` derivatives |
| BiEntropy.IsEntropyCurve | hailstone.py:11 | no contract; the stand-in for the log2 formula: a caller-supplied function of `ones` and `len` whose values lie in [0, 1] when `0 < ones < len` |
| BiEntropy.Weighted | hailstone.py:23 | no contract; defines `shannon_entropy(current_deriv) * weight` |
| BiEntropy.ShannonEntropy | hailstone.py:6-11 | the entropy lies in [0, 1] and is 0 for empty and constant strings |
| BiEntropy.BinaryDerivative | hailstone.py:13-14 | the derivative is one bit shorter (empty for empty input) |
| BiEntropy.DerivativeBits | hailstone.py:13-14 | the derivative is a bit string whose bit `i` is `1` exactly when `s[i] != s[i+1]` |
| BiEntropy.AdjacentEqualConstant | hailstone.py:13-14 | equal neighbours everywhere make every bit equal the first |
| BiEntropy.ZeroDerivativeConstant | hailstone.py:13-14 | an all-zero derivative comes only from a constant string |
| BiEntropy.ConstantDerivativeZero | hailstone.py:13-14 | a constant string has an all-zero derivative |
| BiEntropy.DerivativeZeroIffConstant | hailstone.py:13-14 | the derivative is all zeros if and only if the string is constant |
| BiEntropy.DerivativeLength | hailstone.py:25 | the `k`-th derivative has `len - k` bits |
| BiEntropy.Abs | hailstone.py:17 | no contract; defines `abs` |
| BiEntropy.Bin | hailstone.py:17 | `bin(n)[2:]` is a non-empty bit string starting with `1` exactly when `n > 0`; longer than one bit only with a leading `1`, and exactly `"0"` for 0, so 0 contributes one bit |
| BiEntropy.BinValue | hailstone.py:17 | the bits of `bin(n)[2:]` read back as `n` |
| BiEntropy.BitString | hailstone.py:17 | the concatenation is a bit string with at least one bit per value |
| BiEntropy.WeightedBounds | hailstone.py:23 | one weighted entropy lies in [0, weight] |
| BiEntropy.WeightedTotalBounds | hailstone.py:20-24 | after `k` rounds the total entropy lies in [0, 2^k - 1] |
| BiEntropy.RoundsBounds | hailstone.py:21-26 | the loop runs `min(n - 1, 32)` rounds, between 1 and 32; every round's derivative has at least two bits, so the early `break` never cuts the loop short; the weight sum `2^m - 1` is positive |
| BiEntropy.MeanBounds | hailstone.py:27 | the mean of a total within [0, weight sum] lies in [0, 1] |
| BiEntropy.ScoreBounds | hailstone.py:16-27 | the score lies in [0, 1] |
| BiEntropy.ScoreOfLoop | hailstone.py:21-27 | bridging step, an unfolding of `Score`: the loop's final totals give the score |
| BiEntropy.CalculateBientropy | hailstone.py:16-27 | the loop returns `Score(curve, stream)`, 0 for fewer than two bits, and a value in [0, 1] |
| BiEntropy.ConstantOnes | hailstone.py:10 | a constant bit string has no `1`s or only `1`s |
| BiEntropy.OnesAll | hailstone.py:8 | a string of `1`s counts all its bits |
| BiEntropy.OnesNone | hailstone.py:8 | a string without `1`s counts none |
| BiEntropy.DerivativeOfConstant | hailstone.py:13-25 | every derivative of a constant bit string is a constant bit string |
| BiEntropy.WeightedTotalOfConstant | hailstone.py:20-25 | a constant bit string accumulates no entropy |
| BiEntropy.ConstantScoresZero | hailstone.py:16-27 | a stream whose bit string is constant scores 0 |
| BiEntropy.OnesStreamScoresZero | hailstone.py:16-27 | `[1, 1, 1]` gives the bits `"111"` and scores 0 |
| Wire.IsSpace | hailstone.py:56 | no contract; defines the ASCII characters `strip()` removes: space, 9..13 and 28..31 |
| Wire.TrimLeft | hailstone.py:56 | no contract; defines the removal of leading whitespace |
| Wire.TrimRight | hailstone.py:56 | no contract; defines the removal of trailing whitespace |
| Wire.Strip | hailstone.py:56 | no contract; defines `strip()` on ASCII whitespace |
| Wire.Separator | hailstone.py:52 | no contract; the comma that `",".join` writes and `split(',')` at line 56 splits on |
| Wire.Join | hailstone.py:52 | no contract; defines `",".join` |
| Wire.ShowAll | hailstone.py:52 | no contract; defines `map(str, output)` |
| Wire.Serialize | hailstone.py:52 | no contract; defines `",".join(map(str, output))` |
| Wire.ParseFields | hailstone.py:56 | no contract; defines the parse of line 56: split on commas, strip, drop blank fields, `int()` the rest |
| Wire.Split | hailstone.py:56 | `str.split(',')` yields at least one field |
| Wire.SplitPrefix | hailstone.py:56 | a separator-free prefix joins the first field |
| Wire.SplitJoin | hailstone.py:52-56 | splitting a join of separator-free fields gives the fields back |
| Wire.StripUntouched | hailstone.py:56 | `strip()` keeps a string without surrounding blanks |
| Wire.TrimLeftBlank | hailstone.py:56 | trimming an all-blank string from the left leaves nothing |
| Wire.StripBlank | hailstone.py:56 | `strip()` of an all-blank string is empty |
| Wire.StripShow | hailstone.py:52-56 | `strip()` keeps a printed integer |
| Wire.ParseAll | hailstone.py:56 | parsing the fields yields at most one integer per field |
| Wire.ParseAllCons | hailstone.py:56 | bridging step, an unfolding of `ParseAll`: a non-blank integer field in front parses to that integer in front |
| Wire.ParseShowAll | hailstone.py:52-56 | the printed integers parse back to the integers |
| Wire.ParseSerialize | hailstone.py:52-56 | the comma-joined printed list parses back to the list |
| Wire.SplitBlank | hailstone.py:56 | the fields of blank-or-comma input are all blank |
| Wire.ParseAllBlank | hailstone.py:56 | all-blank fields parse to the empty list |
| Wire.ParseBlank | hailstone.py:56 | blank-or-comma input parses to the empty list |
| Wire.ParseAllRejects | hailstone.py:56-73 | one non-blank field that is not an integer makes the whole parse fail, wherever it stands |
| Decimal.DigitChar | hailstone.py:52 | the digit character has the given value |
| Decimal.ShowNat | hailstone.py:52 | `str(n)` for `n >= 0` is a non-empty digit string with no leading zero once longer than one digit, and exactly `"0"` for 0 |
| Decimal.Show | hailstone.py:52 | `str(n)` is non-empty, all digits but an optional leading `-` |
| Decimal.ParseDigits | hailstone.py:56 | no contract; defines the value of a non-empty run of ASCII digits, `None` otherwise |
| Decimal.Zeros | hailstone.py:56 | a string of length `n` whose every character is `0` |
| Decimal.DigitsValueLeadingZero | hailstone.py:56 | a leading zero digit does not change the value |
| Decimal.DigitsValueZeros | hailstone.py:56 | any number of leading zeros does not change the value |
| Decimal.ParseLeadingZeros | hailstone.py:56 | `int()` accepts leading zeros, unsigned, with `+` and with `-`: zeros in front of `str(n)` read back as `n` or `-n` |
| Decimal.ExampleLeadingZeros | hailstone.py:56 | `"007"` reads as 7 |
| Decimal.DigitsValue | hailstone.py:56 | no contract; defines the value of a digit string, most significant digit first |
| Decimal.ParseInt | hailstone.py:56 | `int()` rejects the empty string, and a negative result comes from a leading `-` |
| Decimal.DigitsValueShowNat | hailstone.py:52-56 | the digits of `str(n)` read back as `n` |
| Decimal.ParseShow | hailstone.py:52-56 | `int(str(n)) == n` for every integer |

## Left out

- The web layer: the Flask application, its template and the form handling (lines 76–192 of `hailstone.py`). This includes its "key required" check. It is HTTP plumbing and is not part of this model.
- `math.log2` and floating point. `shannon_entropy`'s formula `-(p1 log2 p1 + p0 log2 p0)` is a function of the counts of ones and bits that the caller supplies (`BiEntropy.IsEntropyCurve`). The model only assumes it lies in [0, 1] when both bits occur. All other arithmetic of the score is exact real arithmetic, without float rounding.
- BiEntropy.ShannonEntropy: states only the [0, 1] bound and the degenerate zero cases, because the formula itself is abstract.
- Unicode: `str.upper()` is modelled on ASCII only (`a`..`z` to `A`..`Z`); every other character passes through unchanged. `strip()` removes the ASCII whitespace characters 9–13, 28–31 and space; Unicode whitespace is not modelled.
- Codec.RoundTrip / Codec.NormalizeKey / Codec.Encrypt: stated for every string, but they match the source only on ASCII text. Non-ASCII characters that Python upper-cases into `A`..`Z` (`ı` to `I`, `ſ` to `S`, `ß` to `SS`) become letter tokens in the source, move the key cursor and count as key letters; the model passes them through as non-letters. Other non-ASCII letters differ in the upper-cased text itself: `é` stays `é` in the model, while Python gives `É`.
- `int()` accepts an optional sign followed by ASCII digits. Underscores and non-ASCII digits are not modelled.
- Decimal.ParseInt / Decimal.ParseLeadingZeros: accept digit strings of any length. CPython 3.11 and later, and the security releases of 3.7–3.10, refuse decimal text of more than 4300 digits in `int()` with `ValueError`, which the bare `except:` turns into the invalid-format pair. So `decrypt("1" * 4301 + ",999999,75")` gives `("ERROR: Invalid ciphertext format.", "N/A")` in the source, while `Codec.Decode` gives `("?", "K")`. The limit is an interpreter setting (`sys.set_int_max_str_digits`), not part of the program.
- Codec.IsCharCode / Codec.TokenDecodable / Codec.KeyFromCodes / Codec.DecodeChar: Dafny characters are Unicode scalar values, so `chr` of a surrogate code (0xD800–0xDFFF) is treated like any other `chr` failure: the invalid-format pair. Python would return a lone surrogate there.
- The bare `except:` also catches exceptions the model cannot raise, such as memory errors. Only the failures of `int()`, `chr` and of `% len(key)` on an empty key are modelled, each as the invalid-format pair.
- Codec.DecodeValues: the decoding loop of `decrypt` is a method of its own, called from `Codec.Decrypt`, while the source writes it inline inside the `try`. The behaviour is the same; a `None` result stands for the exception that jumps to the `except` branch.
- Python's unbounded integers need no width modelling, apart from the `int()` digit limit above. Dafny's `int` is unbounded too, and `//` and `%` with the positive divisors used here agree with Dafny's.
