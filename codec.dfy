/** The hailstone codec of `hailstone.py`: key normalisation, `encrypt` and
    `decrypt`, and the wire layout `tokens, 999999, key codes`. */
module Codec {
  import opened Options
  import Decimal
  import Wire
  import Chaos
  import BiEntropy

  /** The sentinel separating the message tokens from the embedded key. */
  const Fence: int := 999999

  /** The key used when the supplied key holds no letter. */
  const DefaultKey: string := "KEY"

  /** The two error results of `decrypt`. */
  const MissingFence: (string, string) := ("ERROR: Key Fence (999999) missing.", "N/A")
  const InvalidFormat: (string, string) := ("ERROR: Invalid ciphertext format.", "N/A")

  // ---- characters ----------------------------------------------------------

  /** A character the codec transforms: code 65..90. */
  predicate IsLetter(c: char) { 'A' <= c <= 'Z' }

  /** `str.upper()` on ASCII: `a`..`z` become `A`..`Z`, everything else is
      kept. */
  function UpperChar(c: char): char
  {
    if 'a' <= c <= 'z' then (c as int - 32) as char else c
  }

  function Upper(s: string): (r: string)
    ensures |r| == |s|
    ensures forall i :: 0 <= i < |s| ==> r[i] == UpperChar(s[i])
  {
    if s == [] then [] else [UpperChar(s[0])] + Upper(s[1..])
  }

  /** Upper-casing leaves no lower-case ASCII letter and keeps upper-case
      letters where they are. */
  lemma UpperCharFacts(c: char)
    ensures !('a' <= UpperChar(c) <= 'z')
    ensures IsLetter(c) ==> UpperChar(c) == c
    ensures IsLetter(UpperChar(c)) <==> IsLetter(c) || 'a' <= c <= 'z'
  {
  }

  // ---- key normalisation -----------------------------------------------------

  /** `re.sub(r'[^A-Z]', '', s)`: the letters of `s`, in order. */
  function Letters(s: string): (r: string)
    ensures |r| <= |s|
    ensures forall i :: 0 <= i < |r| ==> IsLetter(r[i])
  {
    if s == [] then [] else (if IsLetter(s[0]) then [s[0]] else []) + Letters(s[1..])
  }

  /** A key as the codec uses it: non-empty, letters only. */
  predicate IsKey(key: string)
  {
    |key| > 0 && forall i :: 0 <= i < |key| ==> IsLetter(key[i])
  }

  /** `re.sub(r'[^A-Z]', '', key.upper()) or "KEY"`. */
  function NormalizeKey(key: string): (k: string)
    ensures IsKey(k)
  {
    var letters := Letters(Upper(key));
    if letters == [] then DefaultKey else letters
  }

  /** Filtering distributes over concatenation. */
  lemma {:induction false} LettersAppend(a: string, b: string)
    ensures Letters(a + b) == Letters(a) + Letters(b)
  {
    if a != [] {
      assert (a + b)[1..] == a[1..] + b;
      LettersAppend(a[1..], b);
    } else {
      assert a + b == b;
    }
  }

  /** Letters pass the filter unchanged ... */
  lemma {:induction false} LettersKeep(s: string)
    requires forall i :: 0 <= i < |s| ==> IsLetter(s[i])
    ensures Letters(s) == s
  {
    if s != [] {
      LettersKeep(s[1..]);
    }
  }

  /** ... and everything else is dropped; with `LettersAppend` this says
      that `Letters(s)` is the in-order subsequence of the letters of `s`. */
  lemma {:induction false} LettersDrop(s: string)
    requires forall i :: 0 <= i < |s| ==> !IsLetter(s[i])
    ensures Letters(s) == []
  {
    if s != [] {
      LettersDrop(s[1..]);
    }
  }

  /** A key without any letter (such as `"123"`) falls back to `"KEY"`. */
  lemma DefaultKeyFallback(key: string)
    requires forall i :: 0 <= i < |key| ==> !IsLetter(key[i]) && !('a' <= key[i] <= 'z')
    ensures NormalizeKey(key) == DefaultKey
  {
    var u := Upper(key);
    forall i | 0 <= i < |u| ensures !IsLetter(u[i]) {
      UpperCharFacts(key[i]);
    }
    LettersDrop(u);
  }

  /** A key that is already normalised is kept as it is. */
  lemma NormalizeKeyIdempotent(key: string)
    requires IsKey(key)
    ensures NormalizeKey(key) == key
  {
    var u := Upper(key);
    assert u == key;
    LettersKeep(key);
  }

  // ---- tokens ------------------------------------------------------------------

  /** Alphabet position of a letter: `A` is 1, `Z` is 26. */
  function Position(c: char): int { c as int - 64 }

  /** The token of a letter `c` under key letter `kc`:
      `collatz_process(l_pos + 101, k_val - 64) * 1000 + (l_pos + k_val)`.
      It is positive, its last three digits are `l_pos + k_val` (66..116),
      so it is never the fence. */
  function LetterToken(c: char, kc: char): (t: int)
    requires IsLetter(c) && IsLetter(kc)
    ensures t > 0
    ensures t % 1000 == Position(c) + kc as int
    ensures 66 <= t % 1000 <= 116
    ensures t != Fence
  {
    var lPos := Position(c);
    var kVal := kc as int;
    Chaos.CollatzPositive(lPos + 101, kVal - 64);
    Chaos.Collatz(lPos + 101, kVal - 64) * 1000 + (lPos + kVal)
  }

  /** The token of one upper-cased message character when the key cursor
      stands at `kPos`: `-code` for a non-letter (the key is not read), the
      letter token under `key[kPos % len(key)]` otherwise. */
  function CharToken(c: char, key: string, kPos: nat): int
    requires IsKey(key)
  {
    if !IsLetter(c) then -(c as int) else LetterToken(c, key[kPos % |key|])
  }

  /** A non-letter is carried as its negated code, a letter as a positive
      token whose last three digits are its position plus its key code; no
      token is the fence. */
  lemma CharTokenShape(c: char, key: string, kPos: nat)
    requires IsKey(key)
    ensures !IsLetter(c) ==> CharToken(c, key, kPos) == -(c as int)
    ensures IsLetter(c) <==> CharToken(c, key, kPos) > 0
    ensures IsLetter(c) ==> CharToken(c, key, kPos) % 1000 == Position(c) + key[kPos % |key|] as int
    ensures CharToken(c, key, kPos) != Fence
  {
  }

  /** The arithmetic of one letter in `encrypt`'s loop is `CharToken`. */
  lemma LetterTokenOfLoop(c: char, key: string, kPos: nat, mathRes: int)
    requires IsKey(key) && IsLetter(c)
    requires mathRes == Chaos.Collatz(Position(c) + 101, key[kPos % |key|] as int - 64)
    ensures mathRes * 1000 + (Position(c) + key[kPos % |key|] as int) == CharToken(c, key, kPos)
  {
  }

  /** How many letters `s` holds: the key cursor after encoding `s`. */
  function LetterCount(s: string): (n: nat)
    ensures n <= |s|
  {
    if s == [] then 0 else LetterCount(s[..|s| - 1]) + (if IsLetter(s[|s| - 1]) then 1 else 0)
  }

  /** The message tokens of `encrypt` for the upper-cased message `text`:
      one per character, the key cursor standing at the number of letters
      before it. */
  function MessageTokens(text: string, key: string): (ts: seq<int>)
    requires IsKey(key)
    ensures |ts| == |text|
  {
    if text == [] then []
    else
      var init := text[..|text| - 1];
      MessageTokens(init, key) + [CharToken(text[|text| - 1], key, LetterCount(init))]
  }

  /** Token `j` is the token of character `j`, with the cursor standing at
      the number of letters before it. */
  lemma {:induction false} MessageTokenAt(text: string, key: string, j: nat)
    requires IsKey(key) && j < |text|
    ensures MessageTokens(text, key)[j] == CharToken(text[j], key, LetterCount(text[..j]))
  {
    var init := text[..|text| - 1];
    if j < |text| - 1 {
      MessageTokenAt(init, key, j);
      assert init[..j] == text[..j];
    } else {
      assert init == text[..j];
    }
  }

  /** One more character extends the tokens by its own token and moves the
      cursor exactly when it is a letter. */
  lemma TokensStep(text: string, key: string, i: nat)
    requires IsKey(key) && i < |text|
    ensures MessageTokens(text[..i + 1], key)
            == MessageTokens(text[..i], key) + [CharToken(text[i], key, LetterCount(text[..i]))]
    ensures LetterCount(text[..i + 1]) == LetterCount(text[..i]) + (if IsLetter(text[i]) then 1 else 0)
  {
    assert text[..i + 1][..i] == text[..i];
  }

  /** `[ord(k) for k in key]`. */
  function KeyCodes(key: string): (cs: seq<int>)
    ensures |cs| == |key|
  {
    seq(|key|, i requires 0 <= i < |key| => key[i] as int)
  }

  /** The complete integer list `encrypt` serialises. */
  function Frame(tokens: seq<int>, key: string): seq<int>
  {
    tokens + [Fence] + KeyCodes(key)
  }

  /** The text `encrypt(msg, key)` returns first. */
  function Encode(msg: string, key: string): string
  {
    var k := NormalizeKey(key);
    Wire.Serialize(Frame(MessageTokens(Upper(msg), k), k))
  }

  /** `encrypt`: one pass over the upper-cased message with the key cursor
      `k_pos`, then the score of the message tokens, then the fence and the
      key codes, comma-joined. The score is taken before the fence is
      appended. */
  method Encrypt(curve: (nat, nat) -> real, msg: string, key0: string) returns (cipher: string, bScore: real)
    requires BiEntropy.IsEntropyCurve(curve)
    ensures cipher == Encode(msg, key0)
    ensures bScore == BiEntropy.Score(curve, MessageTokens(Upper(msg), NormalizeKey(key0)))
    ensures 0.0 <= bScore <= 1.0
  {
    var key := NormalizeKey(key0);
    var text := Upper(msg);
    var output: seq<int> := [];
    var kLen, kPos := |key|, 0;
    for i := 0 to |text|
      invariant kPos == LetterCount(text[..i])
      invariant output == MessageTokens(text[..i], key)
    {
      var c := text[i];
      var code := c as int;
      if code < 65 || code > 90 {
        TokensStep(text, key, i);
        output := output + [-code];
        continue;
      }
      var lPos := code - 64;
      var kVal := key[kPos % kLen] as int;
      var mathRes := Chaos.CollatzProcess(lPos + 101, kVal - 64);
      LetterTokenOfLoop(c, key, kPos, mathRes);
      TokensStep(text, key, i);
      output := output + [mathRes * 1000 + (lPos + kVal)];
      kPos := kPos + 1;
    }
    ghost var tokens := output;
    assert tokens == MessageTokens(text, key) by {
      assert text[..|text|] == text;
    }
    bScore := BiEntropy.CalculateBientropy(curve, output);
    output := output + [Fence];
    output := output + KeyCodes(key);
    assert output == Frame(tokens, key);
    cipher := Wire.Serialize(output);
  }

  // ---- decoding ------------------------------------------------------------------

  /** Integers `chr` turns into a character here: the Unicode scalar values. */
  predicate IsCharCode(x: int) { 0 <= x < 0xD800 || 0xE000 <= x < 0x11_0000 }

  /** `"".join(chr(k) for k in codes)`; `None` where `chr` fails. */
  function KeyFromCodes(codes: seq<int>): Option<string>
  {
    if forall i :: 0 <= i < |codes| ==> IsCharCode(codes[i])
    then Some(seq(|codes|, i requires 0 <= i < |codes| => codes[i] as char))
    else None
  }

  /** The key is rebuilt exactly when every code is a character, and then
      its codes are the ones given. */
  lemma KeyFromCodesFacts(codes: seq<int>)
    ensures KeyFromCodes(codes).Some? <==> forall i :: 0 <= i < |codes| ==> IsCharCode(codes[i])
    ensures KeyFromCodes(codes).Some? ==> KeyCodes(KeyFromCodes(codes).value) == codes
  {
  }

  /** Codes taken from a string rebuild that string. */
  lemma KeyCodesRoundTrip(key: string)
    ensures KeyFromCodes(KeyCodes(key)) == Some(key)
  {
    var codes := KeyCodes(key);
    assert forall i :: 0 <= i < |codes| ==> IsCharCode(codes[i]);
    assert KeyFromCodes(codes).value == key;
  }

  /** How many positive tokens `vals` holds: the key cursor of `decrypt`
      after `vals`. */
  function PositiveCount(vals: seq<int>): (n: nat)
    ensures n <= |vals|
  {
    if vals == [] then 0 else PositiveCount(vals[..|vals| - 1]) + (if vals[|vals| - 1] > 0 then 1 else 0)
  }

  /** A token `decrypt` can decode without raising: `chr(abs(v))` must
      exist, and a positive token needs a non-empty key (`k_pos % len(key)`
      divides by zero otherwise). */
  predicate TokenDecodable(v: int, key: string)
  {
    if v <= 0 then IsCharCode(-v) else |key| > 0
  }

  /** One decoded character. A non-positive token is passed through without
      touching the key; a positive one yields the letter at position
      `v % 1000 - k_val` when that lies in 1..26, and `?` otherwise. */
  function DecodeChar(v: int, key: string, kPos: nat): char
    requires TokenDecodable(v, key)
  {
    if v <= 0 then (-v) as char
    else
      var lPos := v % 1000 - key[kPos % |key|] as int;
      if 1 <= lPos <= 26 then (lPos + 64) as char else '?'
  }

  /** A non-positive token is the character with the negated code,
      whatever the key; a positive one is the letter whose position is
      `v % 1000` less the key code under the cursor, or `?` when that
      position is outside 1..26. */
  lemma DecodeCharShape(v: int, key: string, kPos: nat)
    requires TokenDecodable(v, key)
    ensures v <= 0 ==> DecodeChar(v, key, kPos) as int == -v
    ensures v > 0 && 1 <= v % 1000 - key[kPos % |key|] as int <= 26
            ==> IsLetter(DecodeChar(v, key, kPos))
                && Position(DecodeChar(v, key, kPos)) == v % 1000 - key[kPos % |key|] as int
    ensures v > 0 && !(1 <= v % 1000 - key[kPos % |key|] as int <= 26) ==> DecodeChar(v, key, kPos) == '?'
  {
  }

  /** The decoding loop of `decrypt` over the tokens before the fence;
      `None` exactly when some token raises. */
  function DecodeTokens(vals: seq<int>, key: string): (r: Option<string>)
    ensures r.Some? ==> |r.value| == |vals|
  {
    if vals == [] then Some([])
    else
      var init := vals[..|vals| - 1];
      var last := vals[|vals| - 1];
      match DecodeTokens(init, key)
      case None => None
      case Some(prefix) =>
        if TokenDecodable(last, key) then Some(prefix + [DecodeChar(last, key, PositiveCount(init))]) else None
  }

  /** Decoding fails exactly when some token is not decodable. */
  lemma {:induction false} DecodeTokensDefined(vals: seq<int>, key: string)
    ensures DecodeTokens(vals, key).Some? <==> forall j :: 0 <= j < |vals| ==> TokenDecodable(vals[j], key)
  {
    if vals != [] {
      var init := vals[..|vals| - 1];
      DecodeTokensDefined(init, key);
      assert forall j :: 0 <= j < |init| ==> init[j] == vals[j];
    }
  }

  /** Character `j` is decoded from token `j`, with the cursor standing at
      the number of positive tokens before it. */
  lemma {:induction false} DecodeTokenAt(vals: seq<int>, key: string, j: nat)
    requires DecodeTokens(vals, key).Some? && j < |vals|
    ensures TokenDecodable(vals[j], key)
    ensures DecodeTokens(vals, key).value[j] == DecodeChar(vals[j], key, PositiveCount(vals[..j]))
  {
    var init := vals[..|vals| - 1];
    if j < |vals| - 1 {
      DecodeTokenAt(init, key, j);
      assert init[..j] == vals[..j];
    } else {
      assert init == vals[..j];
    }
  }

  /** One more decodable token extends the text by its own character and
      moves the cursor exactly when it is positive. */
  lemma DecodeStep(vals: seq<int>, key: string, i: nat, prefix: string, ch: char)
    requires i < |vals| && TokenDecodable(vals[i], key)
    requires DecodeTokens(vals[..i], key) == Some(prefix)
    requires ch == DecodeChar(vals[i], key, PositiveCount(vals[..i]))
    ensures DecodeTokens(vals[..i + 1], key) == Some(prefix + [ch])
    ensures PositiveCount(vals[..i + 1]) == PositiveCount(vals[..i]) + (if vals[i] > 0 then 1 else 0)
  {
    assert vals[..i + 1][..i] == vals[..i];
  }

  /** `data.index(x)`: a position of `x` ... */
  function FirstIndex(s: seq<int>, x: int): (i: nat)
    requires x in s
    ensures i < |s| && s[i] == x
  {
    if s[0] == x then 0 else 1 + FirstIndex(s[1..], x)
  }

  /** ... and the first one. */
  lemma {:induction false} FirstIndexIsFirst(s: seq<int>, x: int)
    requires x in s
    ensures x !in s[..FirstIndex(s, x)]
  {
    if s[0] != x {
      assert s == [s[0]] + s[1..];
      FirstIndexIsFirst(s[1..], x);
      assert s[..FirstIndex(s, x)] == [s[0]] + s[1..][..FirstIndex(s[1..], x)];
    }
  }

  /** What `decrypt(cipher_str)` returns. */
  function Decode(cipherStr: string): (string, string)
  {
    match Wire.ParseFields(cipherStr)
    case None => InvalidFormat
    case Some(data) =>
      if Fence !in data then MissingFence
      else
        var fenceIdx := FirstIndex(data, Fence);
        match KeyFromCodes(data[fenceIdx + 1..])
        case None => InvalidFormat
        case Some(key) =>
          match DecodeTokens(data[..fenceIdx], key)
          case None => InvalidFormat
          case Some(plain) => (plain, key)
  }

  /** Past the fence and the key, `decrypt` returns what the token loop
      yields. */
  lemma DecodeOfParts(cipherStr: string, data: seq<int>, key: string)
    requires Wire.ParseFields(cipherStr) == Some(data) && Fence in data
    requires KeyFromCodes(data[FirstIndex(data, Fence) + 1..]) == Some(key)
    ensures DecodeTokens(data[..FirstIndex(data, Fence)], key).None? ==> Decode(cipherStr) == InvalidFormat
    ensures DecodeTokens(data[..FirstIndex(data, Fence)], key).Some?
            ==> Decode(cipherStr) == (DecodeTokens(data[..FirstIndex(data, Fence)], key).value, key)
  {
  }

  /** `decrypt`: parse, find the fence, rebuild the key from the tail, then
      decode token by token with the key cursor `k_pos`. Every exception the
      source catches becomes the invalid-format result. */
  method Decrypt(cipherStr: string) returns (plain: string, keyText: string)
    ensures (plain, keyText) == Decode(cipherStr)
  {
    var parsed := Wire.ParseFields(cipherStr);
    if parsed.None? {
      return InvalidFormat.0, InvalidFormat.1;
    }
    var data := parsed.value;
    if Fence !in data {
      return MissingFence.0, MissingFence.1;
    }
    var fenceIdx := FirstIndex(data, Fence);
    var cipherValues := data[..fenceIdx];
    var rebuilt := KeyFromCodes(data[fenceIdx + 1..]);
    if rebuilt.None? {
      return InvalidFormat.0, InvalidFormat.1;
    }
    var key := rebuilt.value;
    DecodeOfParts(cipherStr, data, key);
    var decoded := DecodeValues(cipherValues, key);
    if decoded.None? {
      return InvalidFormat.0, InvalidFormat.1;
    }
    return decoded.value, key;
  }

  /** The token loop of `decrypt`: `None` where `chr` fails or the key is
      empty under a positive token, the decoded text otherwise. */
  method DecodeValues(cipherValues: seq<int>, key: string) returns (r: Option<string>)
    ensures r == DecodeTokens(cipherValues, key)
  {
    var decoded: string := [];
    var kPos := 0;
    for i := 0 to |cipherValues|
      invariant kPos == PositiveCount(cipherValues[..i])
      invariant DecodeTokens(cipherValues[..i], key) == Some(decoded)
    {
      var val := cipherValues[i];
      if val <= 0 {
        if !IsCharCode(-val) {
          // chr(abs(val)) raises
          DecodeTokensDefined(cipherValues, key);
          return None;
        }
        DecodeStep(cipherValues, key, i, decoded, (-val) as char);
        decoded := decoded + [(-val) as char];
        continue;
      }
      if |key| == 0 {
        // k_pos % len(key) raises
        DecodeTokensDefined(cipherValues, key);
        return None;
      }
      var kVal := key[kPos % |key|] as int;
      var lPos := (val % 1000) - kVal;
      var ch := if 1 <= lPos <= 26 then (lPos + 64) as char else '?';
      DecodeStep(cipherValues, key, i, decoded, ch);
      decoded := decoded + [ch];
      kPos := kPos + 1;
    }
    assert cipherValues[..|cipherValues|] == cipherValues;
    return Some(decoded);
  }

  // ---- properties ------------------------------------------------------------------

  /** No message token is the fence. */
  lemma TokensAvoidFence(text: string, key: string)
    requires IsKey(key)
    ensures Fence !in MessageTokens(text, key)
  {
    var ts := MessageTokens(text, key);
    forall j | 0 <= j < |ts| ensures ts[j] != Fence {
      MessageTokenAt(text, key, j);
      CharTokenShape(text[j], key, LetterCount(text[..j]));
    }
  }

  /** In a frame whose tokens avoid the fence, the first fence stands right
      after the tokens and the key codes follow it. */
  lemma FrameLayout(tokens: seq<int>, key: string)
    requires Fence !in tokens
    ensures Fence in Frame(tokens, key)
    ensures FirstIndex(Frame(tokens, key), Fence) == |tokens|
    ensures Frame(tokens, key)[..|tokens|] == tokens
    ensures Frame(tokens, key)[|tokens| + 1..] == KeyCodes(key)
  {
    var data := Frame(tokens, key);
    assert data[|tokens|] == Fence;
    var f := FirstIndex(data, Fence);
    FirstIndexIsFirst(data, Fence);
    assert forall j :: 0 <= j < |tokens| ==> data[j] == tokens[j];
  }

  /** The key cursors of `encrypt` and `decrypt` move in lockstep: the
      positive tokens of a message are exactly its letters. */
  lemma {:induction false} CursorLockstep(text: string, key: string)
    requires IsKey(key)
    ensures PositiveCount(MessageTokens(text, key)) == LetterCount(text)
  {
    if text != [] {
      var init := text[..|text| - 1];
      var ts := MessageTokens(text, key);
      CursorLockstep(init, key);
      assert ts[..|ts| - 1] == MessageTokens(init, key);
      CharTokenShape(text[|text| - 1], key, LetterCount(init));
    }
  }

  /** Decoding the tokens of a message under the same key gives the message
      back. */
  lemma {:induction false} DecodeMessageTokens(text: string, key: string)
    requires IsKey(key)
    ensures DecodeTokens(MessageTokens(text, key), key) == Some(text)
  {
    if text != [] {
      var init := text[..|text| - 1];
      var c := text[|text| - 1];
      var ts := MessageTokens(text, key);
      var t := CharToken(c, key, LetterCount(init));
      assert ts[..|ts| - 1] == MessageTokens(init, key);
      assert ts[|ts| - 1] == t;
      DecodeMessageTokens(init, key);
      CursorLockstep(init, key);
      CharTokenShape(c, key, LetterCount(init));
      DecodeCharShape(t, key, LetterCount(init));
      assert DecodeChar(t, key, LetterCount(init)) == c;
      assert init + [c] == text;
    }
  }

  /** The central property: decrypting what `encrypt` produced yields the
      upper-cased message and the normalised key. */
  lemma RoundTrip(msg: string, key: string)
    ensures Decode(Encode(msg, key)) == (Upper(msg), NormalizeKey(key))
  {
    var k := NormalizeKey(key);
    var u := Upper(msg);
    var tokens := MessageTokens(u, k);
    var data := Frame(tokens, k);
    Wire.ParseSerialize(data);
    TokensAvoidFence(u, k);
    FrameLayout(tokens, k);
    KeyCodesRoundTrip(k);
    DecodeMessageTokens(u, k);
  }

  /** Empty input, whitespace and bare commas parse to no integers at all,
      so the fence is reported missing. */
  lemma DecodeBlank(s: string)
    requires forall i :: 0 <= i < |s| ==> Wire.IsBlankOrSeparator(s[i])
    ensures Decode(s) == MissingFence
  {
    Wire.ParseBlank(s);
  }

  /** A well-formed list without the fence is reported as missing it. */
  lemma DecodeWithoutFence(xs: seq<int>)
    requires Fence !in xs
    ensures Decode(Wire.Serialize(xs)) == MissingFence
  {
    Wire.ParseSerialize(xs);
  }

  /** A non-blank field that is not an integer makes the text invalid. */
  lemma DecodeMalformed(s: string, i: nat)
    requires i < |Wire.Split(s, Wire.Separator)|
    requires Wire.Strip(Wire.Split(s, Wire.Separator)[i]) != []
    requires Decimal.ParseInt(Wire.Strip(Wire.Split(s, Wire.Separator)[i])) == None
    ensures Decode(s) == InvalidFormat
  {
    Wire.ParseAllRejects(Wire.Split(s, Wire.Separator), i);
  }

  /** A key tail holding a code that is no character makes the text
      invalid. */
  lemma DecodeBadKey(tokens: seq<int>, codes: seq<int>, i: nat)
    requires Fence !in tokens
    requires i < |codes| && !IsCharCode(codes[i])
    ensures Decode(Wire.Serialize(tokens + [Fence] + codes)) == InvalidFormat
  {
    var data := tokens + [Fence] + codes;
    Wire.ParseSerialize(data);
    assert data[|tokens|] == Fence;
    var f := FirstIndex(data, Fence);
    FirstIndexIsFirst(data, Fence);
    assert forall j :: 0 <= j < |tokens| ==> data[j] == tokens[j];
    assert data[f + 1..] == codes;
    KeyFromCodesFacts(codes);
  }

  /** A token that cannot be decoded under the rebuilt key makes the text
      invalid: a positive token with an empty key, or a non-positive one
      whose negation is no character. */
  lemma DecodeBadToken(tokens: seq<int>, key: string, j: nat)
    requires Fence !in tokens
    requires j < |tokens| && !TokenDecodable(tokens[j], key)
    ensures Decode(Wire.Serialize(Frame(tokens, key))) == InvalidFormat
  {
    Wire.ParseSerialize(Frame(tokens, key));
    FrameLayout(tokens, key);
    KeyCodesRoundTrip(key);
    DecodeTokensDefined(tokens, key);
  }

  // ---- examples ----------------------------------------------------------------------

  /** A key of digits only falls back to `"KEY"`. */
  lemma ExampleDigitKey()
    ensures NormalizeKey("123") == DefaultKey
  {
    DefaultKeyFallback("123");
  }

  /** Lower-case letters are upper-cased and kept. */
  lemma ExampleLowerKey()
    ensures NormalizeKey("key") == "KEY"
  {
    assert Upper("key") == "KEY";
    LettersKeep("KEY");
  }

  /** Integers without the fence: the fence is reported missing. */
  lemma ExampleMissingFence()
    ensures Decode("1,2,3") == MissingFence
  {
    assert Wire.Serialize([1, 2, 3]) == "1,2,3";
    DecodeWithoutFence([1, 2, 3]);
  }

  /** Words where integers belong: the format is invalid. */
  lemma ExampleMalformed()
    ensures Decode("abc,def") == InvalidFormat
  {
    assert Wire.Split("abc,def", Wire.Separator)[0] == "abc";
    assert Wire.Strip("abc") == "abc";
    assert Decimal.ParseInt("abc") == None;
    DecodeMalformed("abc,def", 0);
  }
}
