/** What `encode` and `decode` promise: the shape of their results, where
    and why they fail, and that decoding undoes encoding. */
module CodecProperties {
  import opened CodeTable
  import opened Normalizer
  import opened Codec

  /** `k` is the position of the first character of `text` without a code. */
  predicate FirstUnsupported(text: string, k: int) {
    && 0 <= k < |text|
    && text[k] !in CharToNumber
    && forall j :: 0 <= j < k ==> text[j] in CharToNumber
  }

  /** `k` is the index of the first pair of `digits` that is not a key. */
  predicate FirstUnknown(digits: string, k: int) {
    && 0 <= k && 2 * k + 2 <= |digits|
    && Pair(digits, k) !in NumberToChar
    && forall j :: 0 <= j < k ==> Pair(digits, j) in NumberToChar
  }

  // ------------------------------------------------------- the two loops

  /** A successful encoding loop puts the code of the `i`-th character at
      the `i`-th pair of its output. */
  lemma {:induction false} EncodeCharsAt(text: string)
    requires EncodeChars(text).Ok?
    ensures forall i :: 0 <= i < |text| ==> Pair(EncodeChars(text).value, i) == CharToNumber[text[i]]
  {
    if text != [] {
      var e := EncodeChars(text).value;
      EncodeCharsAt(text[1..]);
      assert e == CharToNumber[text[0]] + EncodeChars(text[1..]).value;
      assert e[2..] == EncodeChars(text[1..]).value;
      PairsShift(e);
    }
  }

  /** A failing encoding loop reports the first character without a code. */
  lemma {:induction false} EncodeCharsError(text: string)
    requires EncodeChars(text).Err?
    ensures exists k :: FirstUnsupported(text, k) && EncodeChars(text).error == UnsupportedCharacter(text[k])
  {
    if text[0] in CharToNumber {
      EncodeCharsError(text[1..]);
      var k :| FirstUnsupported(text[1..], k) && EncodeChars(text[1..]).error == UnsupportedCharacter(text[1..][k]);
      assert FirstUnsupported(text, k + 1);
    } else {
      assert FirstUnsupported(text, 0);
    }
  }

  /** A successful decoding loop puts the character of the `i`-th pair at
      position `i` of its output. */
  lemma {:induction false} DecodePairsAt(digits: string)
    requires |digits| % 2 == 0 && DecodePairs(digits).Ok?
    ensures forall i :: 0 <= i < |DecodePairs(digits).value| ==>
      2 * i + 2 <= |digits| && DecodePairs(digits).value[i] == NumberToChar[Pair(digits, i)]
  {
    if digits != [] {
      DecodePairsTail(digits);
      DecodePairsAt(digits[2..]);
      DecodePairsAtStep(digits);
    }
  }

  /** The decoding loop past its first pair. */
  lemma DecodePairsTail(digits: string)
    requires |digits| % 2 == 0 && digits != [] && DecodePairs(digits).Ok?
    ensures |digits| >= 2 && |digits[2..]| % 2 == 0 && DecodePairs(digits[2..]).Ok?
    ensures digits[..2] in NumberToChar
    ensures DecodePairs(digits).value == [NumberToChar[digits[..2]]] + DecodePairs(digits[2..]).value
  {
  }

  /** `DecodePairsAt` for `digits` from `DecodePairsAt` for its tail. */
  lemma DecodePairsAtStep(digits: string)
    requires |digits| >= 2 && |digits[2..]| % 2 == 0 && DecodePairs(digits[2..]).Ok? && digits[..2] in NumberToChar
    requires |digits| % 2 == 0 && DecodePairs(digits).Ok?
    requires DecodePairs(digits).value == [NumberToChar[digits[..2]]] + DecodePairs(digits[2..]).value
    requires forall i :: 0 <= i < |DecodePairs(digits[2..]).value| ==>
      2 * i + 2 <= |digits[2..]| && DecodePairs(digits[2..]).value[i] == NumberToChar[Pair(digits[2..], i)]
    ensures forall i :: 0 <= i < |DecodePairs(digits).value| ==>
      2 * i + 2 <= |digits| && DecodePairs(digits).value[i] == NumberToChar[Pair(digits, i)]
  {
    PairsShift(digits);
  }

  /** A failing decoding loop reports the first pair that is not a key. */
  lemma {:induction false} DecodePairsError(digits: string)
    requires |digits| % 2 == 0 && DecodePairs(digits).Err?
    ensures exists k :: FirstUnknown(digits, k) && DecodePairs(digits).error == UnknownCode(Pair(digits, k))
  {
    PairsShift(digits);
    if digits[..2] in NumberToChar {
      DecodePairsError(digits[2..]);
      var k :| FirstUnknown(digits[2..], k) && DecodePairs(digits[2..]).error == UnknownCode(Pair(digits[2..], k));
      assert FirstUnknown(digits, k + 1);
    } else {
      assert FirstUnknown(digits, 0);
    }
  }

  // ------------------------------------------------------- stripping

  /** Stripping commutes with concatenation, so the digits keep their order. */
  lemma {:induction false} StripNonDigitsAppend(a: string, b: string)
    ensures StripNonDigits(a + b) == StripNonDigits(a) + StripNonDigits(b)
  {
    if a != [] {
      assert (a + b)[1..] == a[1..] + b;
      StripNonDigitsAppend(a[1..], b);
    } else {
      assert a + b == b;
    }
  }

  /** Stripping keeps every digit and drops every other character. */
  lemma {:induction false} StripNonDigitsCounts(s: string)
    ensures forall c :: multiset(StripNonDigits(s))[c] == if IsDigit(c) then multiset(s)[c] else 0
  {
    if s != [] {
      StripNonDigitsCounts(s[1..]);
      assert s == [s[0]] + s[1..];
    }
  }

  /** A string of digits is left as it is. */
  lemma {:induction false} StripNonDigitsOfDigits(s: string)
    requires forall i :: 0 <= i < |s| ==> IsDigit(s[i])
    ensures StripNonDigits(s) == s
  {
    if s != [] {
      StripNonDigitsOfDigits(s[1..]);
    }
  }

  // ------------------------------------------------------- encode

  /** Empty input is no error: `encode` returns the empty code. */
  lemma EncodeEmpty()
    ensures Encoding("") == Ok("")
  {
  }

  /** Empty input is no error: `decode` returns the empty text. */
  lemma DecodeEmpty()
    ensures Decoding("") == Ok("")
  {
  }

  /** `encode` succeeds exactly when every character of the cleaned text has
      a code, which is the case exactly when every character of the input has
      one; its output then is the codes of the cleaned text, in order, two
      digits per character. */
  lemma EncodingSuccess(text: string)
    ensures Encoding(text).Ok? <==> forall i :: 0 <= i < |CleanInput(text)| ==> CleanInput(text)[i] in CharToNumber
    ensures Encoding(text).Ok? <==> forall c :: c in text ==> c in CharToNumber
    ensures Encoding(text).Ok? ==>
      && |Encoding(text).value| == 2 * |CleanInput(text)|
      && forall i :: 0 <= i < |CleanInput(text)| ==> Pair(Encoding(text).value, i) == CharToNumber[CleanInput(text)[i]]
  {
    CleanInputSameCharacters(text);
    if text != [] && Encoding(text).Ok? {
      EncodeCharsAt(CleanInput(text));
    }
  }

  /** When `encode` fails, it names the first character of the cleaned text
      that has no code. */
  lemma EncodingError(text: string)
    requires Encoding(text).Err?
    ensures exists k :: FirstUnsupported(CleanInput(text), k) && Encoding(text).error == UnsupportedCharacter(CleanInput(text)[k])
  {
    EncodeCharsError(CleanInput(text));
  }

  // ------------------------------------------------------- decode

  /** Only the digits of the input matter to `decode`. */
  lemma DecodingIgnoresNonDigits(a: string, b: string)
    requires StripNonDigits(a) == StripNonDigits(b)
    ensures Decoding(a) == Decoding(b)
  {
  }

  /** A non-empty code without a single digit decodes to the empty text. */
  lemma {:induction false} DecodingNoDigits(code: string)
    requires forall c :: c in code ==> !IsDigit(c)
    ensures StripNonDigits(code) == [] && Decoding(code) == Ok([])
  {
    if code != [] {
      assert code[0] in code;
      assert forall c :: c in code[1..] ==> c in code;
      DecodingNoDigits(code[1..]);
    }
  }

  /** A space inside a code changes nothing: "07 14" decodes like "0714". */
  lemma SpacedCode()
    ensures StripNonDigits("07 14") == "0714" && Decoding("07 14") == Decoding("0714")
  {
    StripNonDigitsAppend("07", " 14");
    assert "07" + " 14" == "07 14";
    assert StripNonDigits("07") == "07";
    assert StripNonDigits(" 14") == "14";
    assert "07" + "14" == "0714";
    StripNonDigitsOfDigits("0714");
    DecodingIgnoresNonDigits("07 14", "0714");
  }

  /** An odd number of digits is rejected with the length error, and that is
      the only way to get it. */
  lemma DecodingOddLength(code: string)
    ensures Decoding(code) == Err(InvalidLength) <==> |StripNonDigits(code)| % 2 != 0
  {
    var digits := StripNonDigits(code);
    if |digits| % 2 == 0 && digits != [] && DecodePairs(digits).Err? {
      DecodePairsError(digits);
    }
  }

  /** With an even number of digits, `decode` fails exactly at the first
      pair that is not a key, and that pair is "98" or "99". */
  lemma DecodingUnknownCode(code: string, k: int)
    requires |StripNonDigits(code)| % 2 == 0 && FirstUnknown(StripNonDigits(code), k)
    ensures Decoding(code) == Err(UnknownCode(Pair(StripNonDigits(code), k)))
    ensures Pair(StripNonDigits(code), k) == "98" || Pair(StripNonDigits(code), k) == "99"
  {
    var digits := StripNonDigits(code);
    DecodePairsError(digits);
    var j :| FirstUnknown(digits, j) && DecodePairs(digits).error == UnknownCode(Pair(digits, j));
    assert j == k;
    UnknownPair(digits, k);
  }

  /** A pair of digits that is not a key spells 98 or 99. */
  lemma UnknownPair(digits: string, k: int)
    requires forall i :: 0 <= i < |digits| ==> IsDigit(digits[i])
    requires 0 <= k && 2 * k + 2 <= |digits| && Pair(digits, k) !in NumberToChar
    ensures Pair(digits, k) == "98" || Pair(digits, k) == "99"
  {
    var p := Pair(digits, k);
    assert IsDigit(digits[2 * k]) && IsDigit(digits[2 * k + 1]);
    assert IsDigitPair(p);
    NumberToCharKey(p);
    PairRoundTrip(p);
    assert CodeOf(98) == "98" && CodeOf(99) == "99";
  }

  /** With an even number of digits that are all keys in pairs, `decode`
      succeeds with the character of each pair, in order. */
  lemma DecodingSuccess(code: string)
    requires |StripNonDigits(code)| % 2 == 0
    requires forall i :: 0 <= i && 2 * i < |StripNonDigits(code)| ==> Pair(StripNonDigits(code), i) in NumberToChar
    ensures Decoding(code).Ok?
    ensures 2 * |Decoding(code).value| == |StripNonDigits(code)|
    ensures forall i :: 0 <= i < |Decoding(code).value| ==> Decoding(code).value[i] == NumberToChar[Pair(StripNonDigits(code), i)]
  {
    DecodePairsAt(StripNonDigits(code));
  }

  /** Any pair `decode` rejects is "98" or "99": every other pair of digits
      is a key. */
  lemma UnknownCodeIs98Or99(code: string, p: string)
    requires Decoding(code) == Err(UnknownCode(p))
    ensures p == "98" || p == "99"
  {
    var digits := StripNonDigits(code);
    DecodePairsError(digits);
    var k :| FirstUnknown(digits, k) && DecodePairs(digits).error == UnknownCode(Pair(digits, k));
    UnknownPair(digits, k);
  }

  // ------------------------------------------------------- round trips

  /** A string made of `n` digit pairs is made of digits. */
  lemma PairsOfDigits(s: string, n: nat)
    requires |s| == 2 * n
    requires forall j :: 0 <= j < n ==> IsDigitPair(Pair(s, j))
    ensures forall i :: 0 <= i < |s| ==> IsDigit(s[i])
  {
    forall i | 0 <= i < |s| ensures IsDigit(s[i]) {
      var j := i / 2;
      assert IsDigitPair(Pair(s, j));
      assert s[i] == Pair(s, j)[i - 2 * j];
    }
  }

  /** What the encoding loop produces is a string of digits, two per
      character, whose pairs are keys of `number_to_char`, each naming its
      character. */
  lemma EncodeCharsIsCode(text: string, encoded: string)
    requires EncodeChars(text) == Ok(encoded)
    ensures |encoded| == 2 * |text| && StripNonDigits(encoded) == encoded
    ensures forall i :: 0 <= i < |text| ==> Pair(encoded, i) in NumberToChar && NumberToChar[Pair(encoded, i)] == text[i]
  {
    EncodeCharsAt(text);
    forall i | 0 <= i < |text|
      ensures Pair(encoded, i) in NumberToChar && NumberToChar[Pair(encoded, i)] == text[i]
    {
      CodeOfCharInverse(text[i]);
    }
    forall j | 0 <= j < |text| ensures IsDigitPair(Pair(encoded, j)) {
      NumberToCharKey(Pair(encoded, j));
    }
    PairsOfDigits(encoded, |text|);
    StripNonDigitsOfDigits(encoded);
  }

  /** Decoding what the encoding loop produced gives back its input. */
  lemma DecodeEncodeChars(text: string, encoded: string)
    requires EncodeChars(text) == Ok(encoded)
    ensures encoded != [] ==> Decoding(encoded) == Ok(text)
  {
    EncodeCharsIsCode(text, encoded);
    if encoded != [] {
      DecodePairsEncodeChars(text, encoded);
    }
  }

  /** The decoding loop undoes the encoding loop, one character at a time. */
  lemma {:induction false} DecodePairsEncodeChars(text: string, encoded: string)
    requires EncodeChars(text) == Ok(encoded)
    ensures |encoded| % 2 == 0 && DecodePairs(encoded) == Ok(text)
  {
    if text == [] {
      assert encoded == [];
    } else {
      var p, rest := EncodeCharsHead(text);
      DecodePairsEncodeChars(text[1..], rest);
      DecodeStep(text, p, rest);
    }
  }

  /** The code of the first character of `text` followed by a code of the
      rest decodes to `text`. */
  lemma DecodeStep(text: string, p: string, rest: string)
    requires text != [] && p in NumberToChar && NumberToChar[p] == text[0] && |p| == 2
    requires |rest| % 2 == 0 && DecodePairs(rest) == Ok(text[1..])
    ensures |p + rest| % 2 == 0 && DecodePairs(p + rest) == Ok(text)
  {
    DecodePairsHead(p, rest);
    assert [text[0]] + text[1..] == text;
  }

  /** The encoding loop on a text that encodes: its first character's code,
      then the code of the rest. */
  lemma EncodeCharsHead(text: string) returns (p: string, rest: string)
    requires text != [] && EncodeChars(text).Ok?
    ensures p in NumberToChar && NumberToChar[p] == text[0] && |p| == 2
    ensures EncodeChars(text[1..]) == Ok(rest) && EncodeChars(text).value == p + rest
  {
    p := CharToNumber[text[0]];
    rest := EncodeChars(text[1..]).value;
    CodeOfCharInverse(text[0]);
  }

  /** The decoding loop on a known pair followed by more pairs. */
  lemma DecodePairsHead(p: string, rest: string)
    requires |p| == 2 && p in NumberToChar && |rest| % 2 == 0
    ensures |p + rest| % 2 == 0
    ensures DecodePairs(p + rest) == Prepend([NumberToChar[p]], DecodePairs(rest))
  {
    assert (p + rest)[..2] == p;
    assert (p + rest)[2..] == rest;
  }

  /** Decoding what `encode` produced gives back the cleaned input. */
  lemma RoundTrip(text: string, encoded: string)
    requires Encoding(text) == Ok(encoded)
    ensures Decoding(encoded) == Ok(CleanInput(text))
  {
    if text != [] {
      var cleaned := CleanInput(text);
      DecodeEncodeChars(cleaned, encoded);
    }
  }

  /** Encoding what `decode` produced gives back the digits of the code, as
      long as the decoded text has no run of spaces for `clean_input` to
      collapse. */
  lemma DecodeThenEncode(code: string, decoded: string)
    requires Decoding(code) == Ok(decoded)
    requires NoSpaceRun(decoded)
    ensures Encoding(decoded) == Ok(StripNonDigits(code))
  {
    var digits := StripNonDigits(code);
    if code != [] && decoded != [] {
      DecodingOddLength(code);
      CleanInputFixpoint(decoded);
      EncodeCharsDecodePairs(digits, decoded);
    }
  }

  /** The encoding loop undoes the decoding loop, one pair at a time. */
  lemma {:induction false} EncodeCharsDecodePairs(digits: string, text: string)
    requires |digits| % 2 == 0 && DecodePairs(digits) == Ok(text)
    ensures EncodeChars(text) == Ok(digits)
  {
    if digits != [] {
      var p, rest := DecodePairsHeadOf(digits);
      EncodeCharsDecodePairs(rest, text[1..]);
      EncodeStep(text, p, rest);
    }
  }

  /** The decoding loop on a code that decodes: the character of its first
      pair, then the decoding of the other pairs. */
  lemma DecodePairsHeadOf(digits: string) returns (p: string, rest: string)
    requires |digits| % 2 == 0 && digits != [] && DecodePairs(digits).Ok?
    ensures digits == p + rest && |rest| % 2 == 0
    ensures p in NumberToChar && DecodePairs(digits).value != []
    ensures DecodePairs(digits).value[0] == NumberToChar[p]
    ensures DecodePairs(rest) == Ok(DecodePairs(digits).value[1..])
  {
    p, rest := digits[..2], digits[2..];
    PairsShift(digits);
    assert digits == p + rest;
    var v := DecodePairs(digits).value;
    assert v == [NumberToChar[p]] + DecodePairs(rest).value;
    assert v[1..] == DecodePairs(rest).value;
  }

  /** A character followed by a text that encodes to `rest` encodes to the
      character's code followed by `rest`. */
  lemma EncodeStep(text: string, p: string, rest: string)
    requires text != [] && p in NumberToChar && NumberToChar[p] == text[0]
    requires EncodeChars(text[1..]) == Ok(rest)
    ensures EncodeChars(text) == Ok(p + rest)
  {
    CharOfCodeInverse(p);
  }
}
