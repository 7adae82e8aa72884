/** `encode` and `decode`: the Leecode codec over the code table. The source
    raises `ValueError`; here each failure is a `Result` value naming what
    went wrong. */
module Codec {
  import opened CodeTable
  import opened Normalizer

  /** The three ways the codec fails. */
  datatype Error =
    | UnsupportedCharacter(ch: char)  // `encode`: a character with no code
    | InvalidLength                   // `decode`: an odd number of digits
    | UnknownCode(part: string)       // `decode`: a digit pair that is not a key

  datatype Result<T> = Ok(value: T) | Err(error: Error)

  /** `prefix` put in front of a successful result; a failure passes through. */
  function Prepend(prefix: string, r: Result<string>): Result<string> {
    match r
    case Ok(rest) => Ok(prefix + rest)
    case Err(e) => Err(e)
  }

  // PrependEmpty and PrependPrepend are the two laws the loops' invariants
  // need about `Prepend`.
  lemma PrependEmpty(r: Result<string>)
    ensures Prepend([], r) == r
  {
    if r.Ok? {
      assert [] + r.value == r.value;
    }
  }

  lemma PrependPrepend(a: string, b: string, r: Result<string>)
    ensures Prepend(a, Prepend(b, r)) == Prepend(a + b, r)
  {
    if r.Ok? {
      assert a + (b + r.value) == (a + b) + r.value;
    }
  }

  /** The `i`-th two-character group of `s`. */
  function Pair(s: string, i: nat): string
    requires 2 * i + 2 <= |s|
  {
    s[2 * i..2 * i + 2]
  }

  // ---------------------------------------------------------------- encode

  /** The encoding loop of `encode` over an already cleaned text: each
      character's code in order, or the first character without one. */
  function EncodeChars(text: string): (r: Result<string>)
    ensures r.Ok? <==> forall i :: 0 <= i < |text| ==> text[i] in CharToNumber
    ensures r.Ok? ==> |r.value| == 2 * |text|
    ensures r.Err? ==> r.error.UnsupportedCharacter? && r.error.ch in text && r.error.ch !in CharToNumber
  {
    if text == [] then Ok([])
    else if text[0] in CharToNumber then
      var rest := EncodeChars(text[1..]);
      CodeLength(text[0]);
      EncodeCharsCons(CharToNumber, text, rest);
      Prepend(CharToNumber[text[0]], rest)
    else Err(UnsupportedCharacter(text[0]))
  }

  /** The contract of `EncodeChars` carried from the rest of the text to the
      whole text, when the first character has a two-character code in
      `codes`. It is stated over any map, so that the verifier does not
      unfold the table while proving it, and is a lemma of its own so that
      the function's recursive case stays a small query. */
  lemma EncodeCharsCons(codes: map<char, string>, text: string, rest: Result<string>)
    requires text != [] && text[0] in codes && |codes[text[0]]| == 2
    requires rest.Ok? <==> forall i :: 0 <= i < |text[1..]| ==> text[1..][i] in codes
    requires rest.Ok? ==> |rest.value| == 2 * |text[1..]|
    requires rest.Err? ==> rest.error.UnsupportedCharacter? && rest.error.ch in text[1..] && rest.error.ch !in codes
    ensures Prepend(codes[text[0]], rest).Ok? <==> forall i :: 0 <= i < |text| ==> text[i] in codes
    ensures rest.Ok? ==> |codes[text[0]] + rest.value| == 2 * |text|
    ensures rest.Err? ==> rest.error.ch in text
  {
    assert forall i :: 1 <= i < |text| ==> text[i] == text[1..][i - 1];
    assert forall c :: c in text[1..] ==> c in text;
  }

  /** Every code is two characters long. */
  lemma CodeLength(c: char)
    requires c in CharToNumber
    ensures |CharToNumber[c]| == 2
  {
    CodeOfCharInverse(c);
    NumberToCharKey(CharToNumber[c]);
  }

  /** One turn of the encoding loop, at position `i`. */
  lemma EncodeCharsStep(text: string, i: nat)
    requires i < |text|
    ensures EncodeChars(text[i..]) ==
      if text[i] in CharToNumber then Prepend(CharToNumber[text[i]], EncodeChars(text[i + 1..]))
      else Err(UnsupportedCharacter(text[i]))
  {
    assert text[i..][0] == text[i];
    assert text[i..][1..] == text[i + 1..];
  }

  /** `encode`: empty input gives the empty code, otherwise the input is
      cleaned and its characters are encoded one after the other. A success
      has two digits per character of the cleaned text; a failure names a
      character of the input that has no code. */
  function Encoding(text: string): (r: Result<string>)
    ensures r.Ok? ==> |r.value| == 2 * |CleanInput(text)|
    ensures r.Err? ==> r.error.UnsupportedCharacter? && r.error.ch in text && r.error.ch !in CharToNumber
  {
    if text == [] then Ok([])
    else
      CleanInputSameCharacters(text);
      EncodeChars(CleanInput(text))
  }

  /** `encode`, as the source runs it: a loop that appends each code to an
      accumulator and stops at the first character without a code. */
  method Encode(text: string) returns (r: Result<string>)
    ensures r == Encoding(text)
  {
    if text == [] {
      return Ok([]);
    }
    var cleaned := CleanInput(text);
    var encoded := "";
    assert cleaned[0..] == cleaned;
    PrependEmpty(EncodeChars(cleaned));
    for i := 0 to |cleaned|
      invariant EncodeChars(cleaned) == Prepend(encoded, EncodeChars(cleaned[i..]))
    {
      var ch := cleaned[i];
      EncodeCharsStep(cleaned, i);
      if ch in CharToNumber {
        PrependPrepend(encoded, CharToNumber[ch], EncodeChars(cleaned[i + 1..]));
        encoded := encoded + CharToNumber[ch];
      } else {
        return Err(UnsupportedCharacter(ch));
      }
    }
    assert cleaned[|cleaned|..] == [] && encoded + [] == encoded;
    return Ok(encoded);
  }

  // ---------------------------------------------------------------- decode

  /** `re.sub(r'[^0-9]', '', code)`: the ASCII digits of `code`, in order. */
  function StripNonDigits(code: string): (r: string)
    ensures |r| <= |code|
    ensures forall i :: 0 <= i < |r| ==> IsDigit(r[i])
  {
    if code == [] then []
    else if IsDigit(code[0]) then [code[0]] + StripNonDigits(code[1..])
    else StripNonDigits(code[1..])
  }

  /** The decoding loop of `decode` over an even number of digits: the
      character of each pair in order, or the first pair that is not a key. */
  function DecodePairs(digits: string): (r: Result<string>)
    requires |digits| % 2 == 0
    ensures r.Ok? <==> forall i :: 0 <= i && 2 * i < |digits| ==> Pair(digits, i) in NumberToChar
    ensures r.Ok? ==> 2 * |r.value| == |digits|
    ensures r.Err? ==> r.error.UnknownCode? && |r.error.part| == 2 && r.error.part !in NumberToChar
  {
    if digits == [] then Ok([])
    else
      var part := digits[..2];
      PairsShift(digits);
      if part in NumberToChar then
        Prepend([NumberToChar[part]], DecodePairs(digits[2..]))
      else
        Err(UnknownCode(part))
  }

  /** The pairs of `s[2..]` are those of `s` after the first. */
  lemma PairsShift(s: string)
    requires 2 <= |s|
    ensures Pair(s, 0) == s[..2]
    ensures forall i :: 0 <= i && 2 * i + 2 <= |s| - 2 ==> Pair(s[2..], i) == Pair(s, i + 1)
    ensures forall i :: 1 <= i && 2 * i + 2 <= |s| ==> Pair(s, i) == Pair(s[2..], i - 1)
  {
  }

  /** Two steps on from an even offset below an even length: still even,
      still in range. Kept apart because `%` in the loop's own query makes
      it costly. */
  lemma EvenStep(n: int, i: int)
    requires n % 2 == 0 && i % 2 == 0 && 0 <= i < n
    ensures i + 2 <= n && (n - (i + 2)) % 2 == 0 && (i + 2) % 2 == 0
  {
  }

  /** One turn of the decoding loop, at offset `i`. */
  lemma DecodePairsStep(digits: string, i: nat)
    requires |digits| % 2 == 0 && i % 2 == 0 && i < |digits|
    ensures i + 2 <= |digits| && |digits[i..]| % 2 == 0 && |digits[i + 2..]| % 2 == 0
    ensures DecodePairs(digits[i..]) ==
      if digits[i..i + 2] in NumberToChar then Prepend([NumberToChar[digits[i..i + 2]]], DecodePairs(digits[i + 2..]))
      else Err(UnknownCode(digits[i..i + 2]))
  {
    EvenStep(|digits|, i);
    assert digits[i..][..2] == digits[i..i + 2];
    assert digits[i..][2..] == digits[i + 2..];
  }

  /** `decode`: empty input gives the empty text; otherwise the digits are
      kept, an odd count is rejected and the pairs are looked up in order. A
      success has one character per two digits of the code; a failure is
      either the length error or a two-character pair that is not a key. */
  function Decoding(code: string): (r: Result<string>)
    ensures r.Ok? ==> 2 * |r.value| == |StripNonDigits(code)|
    ensures r.Err? ==> r.error.InvalidLength? || (r.error.UnknownCode? && |r.error.part| == 2 && r.error.part !in NumberToChar)
  {
    if code == [] then Ok([])
    else
      var digits := StripNonDigits(code);
      if |digits| % 2 != 0 then Err(InvalidLength) else DecodePairs(digits)
  }

  /** `decode`, as the source runs it: after stripping and the length check,
      a loop over offsets 0, 2, 4, ... that appends each character and stops
      at the first unknown pair. */
  method Decode(code: string) returns (r: Result<string>)
    ensures r == Decoding(code)
  {
    if code == [] {
      return Ok([]);
    }
    var digits := StripNonDigits(code);
    if |digits| % 2 != 0 {
      return Err(InvalidLength);
    }
    var decoded := "";
    var i := 0;
    assert digits[i..] == digits;
    PrependEmpty(DecodePairs(digits));
    while i < |digits|
      invariant 0 <= i <= |digits| && i % 2 == 0
      invariant DecodePairs(digits) == Prepend(decoded, DecodePairs(digits[i..]))
    {
      EvenStep(|digits|, i);
      var part := digits[i..i + 2];
      DecodePairsStep(digits, i);
      if part in NumberToChar {
        PrependPrepend(decoded, [NumberToChar[part]], DecodePairs(digits[i + 2..]));
        decoded := decoded + [NumberToChar[part]];
      } else {
        return Err(UnknownCode(part));
      }
      i := i + 2;
    }
    assert digits[i..] == [] && decoded + [] == decoded;
    return Ok(decoded);
  }
}
