/** The Leecode code table: `number_to_char` and its inverse `char_to_number`.
    Every supported character has a fixed two-digit decimal code "00".."97". */
module CodeTable {

  /** The values of `number_to_char` in code order: the character whose code
      is the two digits of `n` is `Alphabet[n]`. One row per line of the
      dictionary display, six entries to a row. */
  const Alphabet: seq<char> :=
    ['A', 'B', 'C', 'D', 'E', 'F'] +
    ['G', 'H', 'I', 'J', 'K', 'L'] +
    ['M', 'N', 'O', 'P', 'Q', 'R'] +
    ['S', 'T', 'U', 'V', 'W', 'X'] +
    ['Y', 'Z', 'a', 'b', 'c', 'd'] +
    ['e', 'f', 'g', 'h', 'i', 'j'] +
    ['k', 'l', 'm', 'n', 'o', 'p'] +
    ['q', 'r', 's', 't', 'u', 'v'] +
    ['w', 'x', 'y', 'z', '0', '1'] +
    ['2', '3', '4', '5', '6', '7'] +
    ['8', '9', '.', ',', '?', '!'] +
    [';', ':', '\'', '"', '-', '\U{2014}'] +
    ['(', ')', '[', ']', '{', '}'] +
    ['/', '\\', '|', '@', '#', '$'] +
    ['%', '^', '&', '*', '_', '~'] +
    ['`', '<', '>', '=', ' ', '\t'] +
    ['\n', '\r']

  /** Number of entries in the table. */
  const TableSize: nat := 98

  predicate IsDigit(c: char) {
    '0' <= c <= '9'
  }

  function DigitValue(c: char): (d: nat)
    requires IsDigit(c)
    ensures d < 10
  {
    c as int - '0' as int
  }

  function DigitChar(d: nat): (c: char)
    requires d < 10
    ensures IsDigit(c) && DigitValue(c) == d
  {
    ('0' as int + d) as char
  }

  /** A string of exactly two decimal digits, the shape of every key. */
  predicate IsDigitPair(p: string) {
    |p| == 2 && IsDigit(p[0]) && IsDigit(p[1])
  }

  /** The number a two-digit string denotes ("07" denotes 7). */
  function PairValue(p: string): (n: nat)
    requires IsDigitPair(p)
    ensures n < 100
  {
    10 * DigitValue(p[0]) + DigitValue(p[1])
  }

  /** The two-digit, zero-padded spelling of `n` ("07" for 7). */
  function CodeOf(n: nat): (p: string)
    requires n < 100
    ensures IsDigitPair(p) && PairValue(p) == n
  {
    [DigitChar(n / 10), DigitChar(n % 10)]
  }

  /** The keys of `number_to_char`: the spellings of 0 .. 97. */
  const Codes: set<string> := set n | 0 <= n < |Alphabet| :: CodeOf(n)

  /** `number_to_char`: code "nn" maps to `Alphabet[nn]`. */
  const NumberToChar: map<string, char> :=
    map p | p in Codes :: Alphabet[PairValue(p)]

  /** `char_to_number`, built like the source's comprehension
      `{v: k for k, v in number_to_char.items()}`. */
  const CharToNumber: map<char, string> :=
    map c | c in NumberToChar.Values :: KeyOf(c)

  /** The key under which `number_to_char` holds `c`; there is only one,
      because the table's characters are pairwise distinct. */
  function KeyOf(c: char): string
    requires c in NumberToChar.Values
  {
    NumberToCharInjective();
    var k :| k in NumberToChar && NumberToChar[k] == c; k
  }

  /** The table read by character instead of by code: the number of the code
      the table gives `c`, or -1 when the table has no entry for `c`. It is an
      independent listing used to check the table, not part of the codec. */
  ghost function Listed(c: char): int {
    match c
    case 'A' => 0
    case 'B' => 1
    case 'C' => 2
    case 'D' => 3
    case 'E' => 4
    case 'F' => 5
    case 'G' => 6
    case 'H' => 7
    case 'I' => 8
    case 'J' => 9
    case 'K' => 10
    case 'L' => 11
    case 'M' => 12
    case 'N' => 13
    case 'O' => 14
    case 'P' => 15
    case 'Q' => 16
    case 'R' => 17
    case 'S' => 18
    case 'T' => 19
    case 'U' => 20
    case 'V' => 21
    case 'W' => 22
    case 'X' => 23
    case 'Y' => 24
    case 'Z' => 25
    case 'a' => 26
    case 'b' => 27
    case 'c' => 28
    case 'd' => 29
    case 'e' => 30
    case 'f' => 31
    case 'g' => 32
    case 'h' => 33
    case 'i' => 34
    case 'j' => 35
    case 'k' => 36
    case 'l' => 37
    case 'm' => 38
    case 'n' => 39
    case 'o' => 40
    case 'p' => 41
    case 'q' => 42
    case 'r' => 43
    case 's' => 44
    case 't' => 45
    case 'u' => 46
    case 'v' => 47
    case 'w' => 48
    case 'x' => 49
    case 'y' => 50
    case 'z' => 51
    case '0' => 52
    case '1' => 53
    case '2' => 54
    case '3' => 55
    case '4' => 56
    case '5' => 57
    case '6' => 58
    case '7' => 59
    case '8' => 60
    case '9' => 61
    case '.' => 62
    case ',' => 63
    case '?' => 64
    case '!' => 65
    case ';' => 66
    case ':' => 67
    case '\'' => 68
    case '"' => 69
    case '-' => 70
    case '\U{2014}' => 71
    case '(' => 72
    case ')' => 73
    case '[' => 74
    case ']' => 75
    case '{' => 76
    case '}' => 77
    case '/' => 78
    case '\\' => 79
    case '|' => 80
    case '@' => 81
    case '#' => 82
    case '$' => 83
    case '%' => 84
    case '^' => 85
    case '&' => 86
    case '*' => 87
    case '_' => 88
    case '~' => 89
    case '`' => 90
    case '<' => 91
    case '>' => 92
    case '=' => 93
    case ' ' => 94
    case '\t' => 95
    case '\n' => 96
    case '\r' => 97
    case _ => -1
  }

  lemma AlphabetSize()
    ensures |Alphabet| == TableSize
  {
  }

  // ListedAt00 .. ListedAt91 check the by-character listing against the
  // table seven rows at a time. The split exists for the verifier only: a
  // case split over all 98 rows in one lemma is too large a query.
  lemma ListedAt00(i: int)
    requires 0 <= i < 7
    ensures Listed(Alphabet[i]) == i
  {
    if i == 0 {}
    else if i == 1 {}
    else if i == 2 {}
    else if i == 3 {}
    else if i == 4 {}
    else if i == 5 {}
    else {}
  }

  lemma ListedAt07(i: int)
    requires 7 <= i < 14
    ensures Listed(Alphabet[i]) == i
  {
    if i == 7 {}
    else if i == 8 {}
    else if i == 9 {}
    else if i == 10 {}
    else if i == 11 {}
    else if i == 12 {}
    else {}
  }

  lemma ListedAt14(i: int)
    requires 14 <= i < 21
    ensures Listed(Alphabet[i]) == i
  {
    if i == 14 {}
    else if i == 15 {}
    else if i == 16 {}
    else if i == 17 {}
    else if i == 18 {}
    else if i == 19 {}
    else {}
  }

  lemma ListedAt21(i: int)
    requires 21 <= i < 28
    ensures Listed(Alphabet[i]) == i
  {
    if i == 21 {}
    else if i == 22 {}
    else if i == 23 {}
    else if i == 24 {}
    else if i == 25 {}
    else if i == 26 {}
    else {}
  }

  lemma ListedAt28(i: int)
    requires 28 <= i < 35
    ensures Listed(Alphabet[i]) == i
  {
    if i == 28 {}
    else if i == 29 {}
    else if i == 30 {}
    else if i == 31 {}
    else if i == 32 {}
    else if i == 33 {}
    else {}
  }

  lemma ListedAt35(i: int)
    requires 35 <= i < 42
    ensures Listed(Alphabet[i]) == i
  {
    if i == 35 {}
    else if i == 36 {}
    else if i == 37 {}
    else if i == 38 {}
    else if i == 39 {}
    else if i == 40 {}
    else {}
  }

  lemma ListedAt42(i: int)
    requires 42 <= i < 49
    ensures Listed(Alphabet[i]) == i
  {
    if i == 42 {}
    else if i == 43 {}
    else if i == 44 {}
    else if i == 45 {}
    else if i == 46 {}
    else if i == 47 {}
    else {}
  }

  lemma ListedAt49(i: int)
    requires 49 <= i < 56
    ensures Listed(Alphabet[i]) == i
  {
    if i == 49 {}
    else if i == 50 {}
    else if i == 51 {}
    else if i == 52 {}
    else if i == 53 {}
    else if i == 54 {}
    else {}
  }

  lemma ListedAt56(i: int)
    requires 56 <= i < 63
    ensures Listed(Alphabet[i]) == i
  {
    if i == 56 {}
    else if i == 57 {}
    else if i == 58 {}
    else if i == 59 {}
    else if i == 60 {}
    else if i == 61 {}
    else {}
  }

  lemma ListedAt63(i: int)
    requires 63 <= i < 70
    ensures Listed(Alphabet[i]) == i
  {
    if i == 63 {}
    else if i == 64 {}
    else if i == 65 {}
    else if i == 66 {}
    else if i == 67 {}
    else if i == 68 {}
    else {}
  }

  lemma ListedAt70(i: int)
    requires 70 <= i < 77
    ensures Listed(Alphabet[i]) == i
  {
    if i == 70 {}
    else if i == 71 {}
    else if i == 72 {}
    else if i == 73 {}
    else if i == 74 {}
    else if i == 75 {}
    else {}
  }

  lemma ListedAt77(i: int)
    requires 77 <= i < 84
    ensures Listed(Alphabet[i]) == i
  {
    if i == 77 {}
    else if i == 78 {}
    else if i == 79 {}
    else if i == 80 {}
    else if i == 81 {}
    else if i == 82 {}
    else {}
  }

  lemma ListedAt84(i: int)
    requires 84 <= i < 91
    ensures Listed(Alphabet[i]) == i
  {
    if i == 84 {}
    else if i == 85 {}
    else if i == 86 {}
    else if i == 87 {}
    else if i == 88 {}
    else if i == 89 {}
    else {}
  }

  lemma ListedAt91(i: int)
    requires 91 <= i < 98
    ensures Listed(Alphabet[i]) == i
  {
    if i == 91 {}
    else if i == 92 {}
    else if i == 93 {}
    else if i == 94 {}
    else if i == 95 {}
    else if i == 96 {}
    else {}
  }

  /** Every table character is listed under its own code. */
  lemma ListedAt(i: int)
    requires 0 <= i < |Alphabet|
    ensures Listed(Alphabet[i]) == i
  {
    if i < 7 { ListedAt00(i); }
    else if i < 14 { ListedAt07(i); }
    else if i < 21 { ListedAt14(i); }
    else if i < 28 { ListedAt21(i); }
    else if i < 35 { ListedAt28(i); }
    else if i < 42 { ListedAt35(i); }
    else if i < 49 { ListedAt42(i); }
    else if i < 56 { ListedAt49(i); }
    else if i < 63 { ListedAt56(i); }
    else if i < 70 { ListedAt63(i); }
    else if i < 77 { ListedAt70(i); }
    else if i < 84 { ListedAt77(i); }
    else if i < 91 { ListedAt84(i); }
    else { ListedAt91(i); }
  }


  /** The 98 characters of the table are pairwise distinct. */
  lemma AlphabetDistinct()
    ensures forall i, j :: 0 <= i < |Alphabet| && 0 <= j < |Alphabet| && i != j ==> Alphabet[i] != Alphabet[j]
  {
    forall i, j | 0 <= i < |Alphabet| && 0 <= j < |Alphabet| && i != j
      ensures Alphabet[i] != Alphabet[j]
    {
      ListedAt(i);
      ListedAt(j);
    }
  }

  /** A two-digit string is a key of `number_to_char` exactly when the number
      it denotes is below 98, and then it maps to that position of the table. */
  lemma NumberToCharKey(p: string)
    ensures p in NumberToChar <==> IsDigitPair(p) && PairValue(p) < TableSize
    ensures p in NumberToChar ==> NumberToChar[p] == Alphabet[PairValue(p)]
  {
    AlphabetSize();
    if IsDigitPair(p) && PairValue(p) < TableSize {
      PairRoundTrip(p);
      assert CodeOf(PairValue(p)) in Codes;
    }
  }

  /** Reading a digit pair as a number and spelling the number back gives the pair. */
  lemma PairRoundTrip(p: string)
    requires IsDigitPair(p)
    ensures CodeOf(PairValue(p)) == p
  {
    var q := CodeOf(PairValue(p));
    assert q[0] == p[0] && q[1] == p[1];
  }

  lemma NumberToCharInjective()
    ensures forall k1, k2 :: k1 in NumberToChar && k2 in NumberToChar && NumberToChar[k1] == NumberToChar[k2] ==> k1 == k2
  {
    AlphabetDistinct();
    forall k1, k2 | k1 in NumberToChar && k2 in NumberToChar && NumberToChar[k1] == NumberToChar[k2]
      ensures k1 == k2
    {
      NumberToCharKey(k1);
      NumberToCharKey(k2);
      PairRoundTrip(k1);
      PairRoundTrip(k2);
    }
  }

  /** The character with code `CodeOf(i)` is encoded back to `CodeOf(i)`. */
  lemma CharToNumberAt(i: int)
    requires 0 <= i < |Alphabet|
    ensures CodeOf(i) in NumberToChar && NumberToChar[CodeOf(i)] == Alphabet[i]
    ensures Alphabet[i] in CharToNumber && CharToNumber[Alphabet[i]] == CodeOf(i)
  {
    assert CodeOf(i) in Codes;
    NumberToCharInjective();
  }

  /** Looking up the code of a character and then the character of that
      code gives back the character. */
  lemma CodeOfCharInverse(c: char)
    requires c in CharToNumber
    ensures CharToNumber[c] in NumberToChar && NumberToChar[CharToNumber[c]] == c
  {
    NumberToCharInjective();
  }

  /** Looking up the character of a code and then the code of that
      character gives back the code. */
  lemma CharOfCodeInverse(p: string)
    requires p in NumberToChar
    ensures NumberToChar[p] in CharToNumber && CharToNumber[NumberToChar[p]] == p
  {
    NumberToCharKey(p);
    PairRoundTrip(p);
    CharToNumberAt(PairValue(p));
  }

  /** `char_to_number` and `number_to_char` are inverse to each other. */
  lemma TablesInverse()
    ensures forall p :: p in NumberToChar ==> NumberToChar[p] in CharToNumber && CharToNumber[NumberToChar[p]] == p
    ensures forall c :: c in CharToNumber ==> CharToNumber[c] in NumberToChar && NumberToChar[CharToNumber[c]] == c
  {
    forall p | p in NumberToChar
      ensures NumberToChar[p] in CharToNumber && CharToNumber[NumberToChar[p]] == p
    {
      CharOfCodeInverse(p);
    }
    forall c | c in CharToNumber
      ensures CharToNumber[c] in NumberToChar && NumberToChar[CharToNumber[c]] == c
    {
      CodeOfCharInverse(c);
    }
  }

  /** A sequence whose first `k` elements are pairwise distinct has `k`
      distinct values among them. */
  lemma {:induction false} DistinctPrefixSize<T>(s: seq<T>, k: nat)
    requires k <= |s|
    requires forall i, j :: 0 <= i < k && 0 <= j < k && i != j ==> s[i] != s[j]
    ensures |set n | 0 <= n < k :: s[n]| == k
  {
    if k > 0 {
      var prefix := set n | 0 <= n < k - 1 :: s[n];
      assert (set n | 0 <= n < k :: s[n]) == prefix + {s[k - 1]};
      DistinctPrefixSize(s, k - 1);
    }
  }

  lemma {:induction false} CodesPrefixSize(k: nat)
    requires k <= 100
    ensures |set n | 0 <= n < k :: CodeOf(n)| == k
  {
    if k > 0 {
      var prefix := set n | 0 <= n < k - 1 :: CodeOf(n);
      assert (set n | 0 <= n < k :: CodeOf(n)) == prefix + {CodeOf(k - 1)};
      CodesPrefixSize(k - 1);
    }
  }

  /** The keys of `char_to_number` are exactly the table's characters. */
  lemma CharToNumberKeys()
    ensures CharToNumber.Keys == set n | 0 <= n < |Alphabet| :: Alphabet[n]
  {
    AlphabetInKeys();
    KeysInAlphabet();
  }

  lemma AlphabetInKeys()
    ensures forall n :: 0 <= n < |Alphabet| ==> Alphabet[n] in CharToNumber
  {
    forall n | 0 <= n < |Alphabet| ensures Alphabet[n] in CharToNumber {
      CharToNumberAt(n);
    }
  }

  lemma KeysInAlphabet()
    ensures forall c :: c in CharToNumber ==> exists n :: 0 <= n < |Alphabet| && Alphabet[n] == c
  {
    forall c | c in CharToNumber ensures exists n :: 0 <= n < |Alphabet| && Alphabet[n] == c {
      var p :| p in NumberToChar && NumberToChar[p] == c;
      NumberToCharKey(p);
    }
  }

  /** Both tables have 98 entries. */
  lemma TableSizes()
    ensures |NumberToChar| == TableSize && |CharToNumber| == TableSize
  {
    NumberToCharSize();
    CharToNumberSize();
  }

  lemma NumberToCharSize()
    ensures |NumberToChar| == TableSize
  {
    AlphabetSize();
    CodesPrefixSize(TableSize);
    assert Codes == set n | 0 <= n < TableSize :: CodeOf(n);
    assert NumberToChar.Keys == Codes;
  }

  lemma CharToNumberSize()
    ensures |CharToNumber| == TableSize
  {
    AlphabetSize();
    AlphabetDistinct();
    DistinctPrefixSize(Alphabet, TableSize);
    CharToNumberKeys();
    assert CharToNumber.Keys == set n | 0 <= n < TableSize :: Alphabet[n];
  }

  /** The largest code `char_to_number` produces is "97" (all codes have two
      digits, so numeric and string order agree on them). */
  lemma MaxCode()
    ensures "97" in CharToNumber.Values
    ensures forall v :: v in CharToNumber.Values ==> IsDigitPair(v) && PairValue(v) <= 97
  {
    assert CodeOf(97) == "97";
    AlphabetSize();
    CharToNumberAt(97);
    forall v | v in CharToNumber.Values ensures IsDigitPair(v) && PairValue(v) <= 97 {
      var c :| c in CharToNumber && CharToNumber[c] == v;
      TablesInverse();
      NumberToCharKey(v);
    }
  }
}
