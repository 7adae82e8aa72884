/** The checks of `test_leecode`: every test and edge case is encoded,
    decoded, and the result compared with the cleaned input; the table's
    size and largest code are reported; two hand-written codes are decoded.
    The file repeats the table, `clean_input`, `encode` and `decode` of the
    application word for word, so the modules CodeTable, Normalizer and Codec
    stand for both copies. */
module TestLeecode {
  import opened CodeTable
  import opened Normalizer
  import opened Codec
  import opened CodecProperties

  // ------------------------------------------------------- the test loop

  /** What one test prints: a check mark, a cross, or the error it caught. */
  datatype Verdict = Passed | Failed | Raised(error: Error)

  /** One test: encode, decode the result, compare with the cleaned input.
      The cross is never printed, and the check mark is printed exactly for
      the inputs whose every character has a code. */
  function RoundTripVerdict(original: string): (v: Verdict)
    ensures v != Failed
    ensures v == Passed <==> forall c :: c in original ==> c in CharToNumber
    ensures v.Raised? ==> Encoding(original) == Err(v.error) && v.error.UnsupportedCharacter?
  {
    EncodingSuccess(original);
    match Encoding(original)
    case Err(e) =>
      EncodingError(original);
      Raised(e)
    case Ok(encoded) =>
      RoundTrip(original, encoded);
      match Decoding(encoded)
      case Err(e) => Raised(e)
      case Ok(decoded) => if decoded == CleanInput(original) then Passed else Failed
  }

  /** The body of one iteration of the test loops, calling the imperative
      `encode` and `decode`. */
  method RunCase(original: string) returns (v: Verdict)
    ensures v == RoundTripVerdict(original)
  {
    var encoded := Encode(original);
    if encoded.Err? {
      return Raised(encoded.error);
    }
    var decoded := Decode(encoded.value);
    if decoded.Err? {
      return Raised(decoded.error);
    }
    if decoded.value == CleanInput(original) {
      return Passed;
    }
    return Failed;
  }

  /** A test loop over a list of cases, one verdict per case. */
  method RunCases(cases: seq<string>) returns (verdicts: seq<Verdict>)
    ensures |verdicts| == |cases|
    ensures forall k :: 0 <= k < |cases| ==> verdicts[k] == RoundTripVerdict(cases[k])
  {
    verdicts := [];
    for i := 0 to |cases|
      invariant |verdicts| == i
      invariant forall k :: 0 <= k < i ==> verdicts[k] == RoundTripVerdict(cases[k])
    {
      var v := RunCase(cases[i]);
      verdicts := verdicts + [v];
    }
  }

  /** The eight sample sentences. */
  const TestCases: seq<string> := [
    "Hello World!",
    "Python 3.11",
    "Test@123",
    "Special chars: !@#$%^&*()",
    "Numbers: 0123456789",
    "Mixed: ABC123xyz!?.",
    "Single space",
    "Multiple   spaces   here"
  ]

  /** The edge cases: empty, one letter, only spaces, control characters,
      and digits that look like codes. */
  const EdgeCases: seq<string> := ["", "A", "  ", "\n\t", "00"]

  // ------------------------------------------- texts spelled by table rows

  /** Every entry of `idx` is a row of the table. */
  predicate InTable(idx: seq<nat>) {
    forall k :: 0 <= k < |idx| ==> idx[k] < |Alphabet|
  }

  /** The text whose characters are the table rows `idx`. */
  function Spell(idx: seq<nat>): string
    requires InTable(idx)
  {
    if idx == [] then [] else [Alphabet[idx[0]]] + Spell(idx[1..])
  }

  /** The codes of the table rows `idx`, concatenated. */
  function CodeString(idx: seq<nat>): string
    requires InTable(idx)
  {
    if idx == [] then [] else CodeOf(idx[0]) + CodeString(idx[1..])
  }

  lemma InTableAppend(a: seq<nat>, b: seq<nat>)
    requires InTable(a) && InTable(b)
    ensures InTable(a + b)
  {
    forall k | 0 <= k < |a + b| ensures (a + b)[k] < |Alphabet| {
      if k < |a| {
        assert (a + b)[k] == a[k];
      } else {
        assert (a + b)[k] == b[k - |a|];
      }
    }
  }

  lemma InTableTail(a: seq<nat>)
    requires a != [] && InTable(a)
    ensures InTable(a[1..])
  {
    forall k | 0 <= k < |a[1..]| ensures a[1..][k] < |Alphabet| {
      assert a[1..][k] == a[k + 1];
    }
  }

  lemma {:induction false} SpellAppend(a: seq<nat>, b: seq<nat>)
    requires InTable(a) && InTable(b)
    ensures InTable(a + b) && Spell(a + b) == Spell(a) + Spell(b)
  {
    InTableAppend(a, b);
    if a == [] {
      assert a + b == b;
    } else {
      var ab := a + b;
      assert ab[0] == a[0];
      assert ab[1..] == a[1..] + b;
      InTableTail(a);
      SpellAppend(a[1..], b);
      calc {
        Spell(ab);
        [Alphabet[a[0]]] + Spell(a[1..] + b);
        [Alphabet[a[0]]] + (Spell(a[1..]) + Spell(b));
        ([Alphabet[a[0]]] + Spell(a[1..])) + Spell(b);
      }
    }
  }

  lemma {:induction false} CodeStringAppend(a: seq<nat>, b: seq<nat>)
    requires InTable(a) && InTable(b)
    ensures InTable(a + b) && CodeString(a + b) == CodeString(a) + CodeString(b)
  {
    InTableAppend(a, b);
    if a == [] {
      assert a + b == b;
    } else {
      var ab := a + b;
      assert ab[0] == a[0];
      assert ab[1..] == a[1..] + b;
      InTableTail(a);
      CodeStringAppend(a[1..], b);
      calc {
        CodeString(ab);
        CodeOf(a[0]) + CodeString(a[1..] + b);
        CodeOf(a[0]) + (CodeString(a[1..]) + CodeString(b));
        (CodeOf(a[0]) + CodeString(a[1..])) + CodeString(b);
      }
    }
  }

  lemma {:induction false} SpelledLength(idx: seq<nat>)
    requires InTable(idx)
    ensures |CodeString(idx)| == 2 * |idx|
  {
    if idx != [] {
      SpelledLength(idx[1..]);
    }
  }

  lemma {:induction false} SpelledDigits(idx: seq<nat>)
    requires InTable(idx)
    ensures StripNonDigits(CodeString(idx)) == CodeString(idx)
  {
    if idx != [] {
      SpelledDigits(idx[1..]);
      var c := CodeOf(idx[0]);
      StripNonDigitsAppend(c, CodeString(idx[1..]));
      assert c[1..][1..] == [];
      assert StripNonDigits(c) == c;
    }
  }

  /** The encoding loop turns the spelled text into the code string. */
  lemma {:induction false} SpelledEncodes(idx: seq<nat>)
    requires InTable(idx)
    ensures EncodeChars(Spell(idx)) == Ok(CodeString(idx))
  {
    if idx != [] {
      SpelledEncodes(idx[1..]);
      CharToNumberAt(idx[0]);
      assert Spell(idx)[0] == Alphabet[idx[0]] && Spell(idx)[1..] == Spell(idx[1..]);
    }
  }

  /** The decoding loop turns the code string back into the spelled text. */
  lemma {:induction false} SpelledDecodes(idx: seq<nat>)
    requires InTable(idx)
    ensures |CodeString(idx)| % 2 == 0 && DecodePairs(CodeString(idx)) == Ok(Spell(idx))
  {
    SpelledLength(idx);
    assert |CodeString(idx)| % 2 == 0;
    if idx != [] {
      SpelledDecodes(idx[1..]);
      CharToNumberAt(idx[0]);
      var c := CodeOf(idx[0]);
      var rest := CodeString(idx[1..]);
      assert (c + rest)[..2] == c && (c + rest)[2..] == rest;
    }
  }

  /** `encode(text)` is `code` when `text` cleans to the spelling of `idx`. */
  lemma EncodesSpelled(text: string, idx: seq<nat>, code: string)
    requires text != [] && InTable(idx) && CleanInput(text) == Spell(idx) && CodeString(idx) == code
    ensures Encoding(text) == Ok(code)
  {
    SpelledEncodes(idx);
  }

  /** `decode(code)` is `text` when `code` is the code string of `idx`. */
  lemma DecodesSpelled(code: string, idx: seq<nat>, text: string)
    requires idx != [] && InTable(idx) && CodeString(idx) == code && Spell(idx) == text
    ensures Decoding(code) == Ok(text)
  {
    SpelledLength(idx);
    SpelledDigits(idx);
    SpelledDecodes(idx);
  }

  // ------------------------------------------- generic steps of the checks

  /** A text written with characters of the table passes its test. */
  lemma PassesIfListed(text: string)
    requires forall c :: c in text ==> c in Alphabet
    ensures RoundTripVerdict(text) == Passed
  {
    AlphabetInKeys();
  }

  /** `CleanWordRun` with the text and its cleaned form named. */
  lemma CleanParts(t: string, a: string, run: string, b: string, cb: string, c: string)
    requires a != [] && ' ' !in a
    requires run != [] && forall ch :: ch in run ==> ch == ' '
    requires b == [] || b[0] != ' '
    requires t == a + run + b && CleanInput(b) == cb && c == a + [' '] + cb
    ensures CleanInput(t) == c
  {
    CleanWordRun(a, run, b);
  }

  /** A string is its three slices at `i` and `j`: a long literal is then
      compared with its pieces slice by slice. */
  lemma Split3(s: string, i: nat, j: nat)
    requires i <= j <= |s|
    ensures s == s[..i] + s[i..j] + s[j..]
  {
  }

  // ------------------------------------------- the concrete checks

  // Spellings of the short texts, a few characters at a time. Evaluating
  // `Spell` or `CodeString` on more than four rows at once is too costly
  // for the verifier, so the longer texts (HelloText, HiThereCode,
  // HelhoPoPText, ...) are put together from pieces with SpellAppend and
  // CodeStringAppend. The pieces serve only that purpose.

  lemma HiText() ensures InTable([7, 34]) && Spell([7, 34]) == "Hi" {}
  lemma HiCode() ensures InTable([7, 34]) && CodeString([7, 34]) == "0734" {}

  lemma ABText() ensures InTable([0, 94, 1]) && Spell([0, 94, 1]) == "A B" {}
  lemma ABCode() ensures InTable([0, 94, 1]) && CodeString([0, 94, 1]) == "009401" {}

  lemma SpaceText() ensures InTable([94]) && Spell([94]) == " " {}
  lemma SpaceCode() ensures InTable([94]) && CodeString([94]) == "94" {}

  lemma ControlText() ensures InTable([96, 95]) && Spell([96, 95]) == "\n\t" {}
  lemma ControlCode() ensures InTable([96, 95]) && CodeString([96, 95]) == "9695" {}

  lemma ZerosText() ensures InTable([52, 52]) && Spell([52, 52]) == "00" {}
  lemma ZerosCode() ensures InTable([52, 52]) && CodeString([52, 52]) == "5252" {}


  lemma HelloText0() ensures InTable([7, 30, 37, 37]) && Spell([7, 30, 37, 37]) == "Hell" {}
  lemma HelloText1() ensures InTable([40, 65]) && Spell([40, 65]) == "o!" {}

  lemma HelloText()
    ensures InTable([7, 30, 37, 37] + [40, 65]) && Spell([7, 30, 37, 37] + [40, 65]) == "Hello!"
  {
    HelloText0();
    HelloText1();
    SpellAppend([7, 30, 37, 37], [40, 65]);
    assert "Hell" + "o!" == "Hello!";
  }
  lemma HelloCode0() ensures InTable([7, 30, 37, 37]) && CodeString([7, 30, 37, 37]) == "07303737" {}
  lemma HelloCode1() ensures InTable([40, 65]) && CodeString([40, 65]) == "4065" {}

  lemma HelloCode()
    ensures InTable([7, 30, 37, 37] + [40, 65]) && CodeString([7, 30, 37, 37] + [40, 65]) == "073037374065"
  {
    HelloCode0();
    HelloCode1();
    CodeStringAppend([7, 30, 37, 37], [40, 65]);
    assert "07303737" + "4065" == "073037374065";
  }

  lemma HiThereText0() ensures InTable([7, 34, 94, 45]) && Spell([7, 34, 94, 45]) == "Hi t" {}
  lemma HiThereText1() ensures InTable([33, 30, 43, 30]) && Spell([33, 30, 43, 30]) == "here" {}

  lemma HiThereText()
    ensures InTable([7, 34, 94, 45] + [33, 30, 43, 30]) && Spell([7, 34, 94, 45] + [33, 30, 43, 30]) == "Hi there"
  {
    HiThereText0();
    HiThereText1();
    SpellAppend([7, 34, 94, 45], [33, 30, 43, 30]);
    assert "Hi t" + "here" == "Hi there";
  }
  lemma HiThereCode0() ensures InTable([7, 34, 94, 45]) && CodeString([7, 34, 94, 45]) == "07349445" {}
  lemma HiThereCode1() ensures InTable([33, 30, 43, 30]) && CodeString([33, 30, 43, 30]) == "33304330" {}

  lemma HiThereCode()
    ensures InTable([7, 34, 94, 45] + [33, 30, 43, 30]) && CodeString([7, 34, 94, 45] + [33, 30, 43, 30]) == "0734944533304330"
  {
    HiThereCode0();
    HiThereCode1();
    CodeStringAppend([7, 34, 94, 45], [33, 30, 43, 30]);
    assert "07349445" + "33304330" == "0734944533304330";
  }

  lemma HelhoPoPText0() ensures InTable([7, 30, 37, 33]) && Spell([7, 30, 37, 33]) == "Helh" {}
  lemma HelhoPoPText1() ensures InTable([40, 15, 40, 15]) && Spell([40, 15, 40, 15]) == "oPoP" {}
  lemma HelhoPoPText2() ensures InTable([94, 8, 45]) && Spell([94, 8, 45]) == " It" {}

  lemma HelhoPoPText()
    ensures InTable([7, 30, 37, 33] + [40, 15, 40, 15] + [94, 8, 45]) && Spell([7, 30, 37, 33] + [40, 15, 40, 15] + [94, 8, 45]) == "HelhoPoP It"
  {
    HelhoPoPText0();
    HelhoPoPText1();
    HelhoPoPText2();
    SpellAppend([7, 30, 37, 33], [40, 15, 40, 15]);
    SpellAppend([7, 30, 37, 33] + [40, 15, 40, 15], [94, 8, 45]);
    assert "Helh" + "oPoP" + " It" == "HelhoPoP It";
  }
  lemma HelhoPoPCode0() ensures InTable([7, 30, 37, 33]) && CodeString([7, 30, 37, 33]) == "07303733" {}
  lemma HelhoPoPCode1() ensures InTable([40, 15, 40, 15]) && CodeString([40, 15, 40, 15]) == "40154015" {}
  lemma HelhoPoPCode2() ensures InTable([94, 8, 45]) && CodeString([94, 8, 45]) == "940845" {}

  lemma HelhoPoPCode()
    ensures InTable([7, 30, 37, 33] + [40, 15, 40, 15] + [94, 8, 45]) && CodeString([7, 30, 37, 33] + [40, 15, 40, 15] + [94, 8, 45]) == "0730373340154015940845"
  {
    HelhoPoPCode0();
    HelhoPoPCode1();
    HelhoPoPCode2();
    CodeStringAppend([7, 30, 37, 33], [40, 15, 40, 15]);
    CodeStringAppend([7, 30, 37, 33] + [40, 15, 40, 15], [94, 8, 45]);
    HelhoPoPCodeParts();
  }

  lemma HelhoPoPCodeParts()
    ensures "0730373340154015940845" == "07303733" + "40154015" + "940845"
  {
    var w := "0730373340154015940845";
    Split3(w, 8, 16);
    assert w[..8] == "07303733";
    assert w[8..16] == "40154015";
    assert w[16..] == "940845";
  }

  // Every sample and edge case is written with characters of the table.

  lemma HelloWorldListed() ensures forall c :: c in "Hello World!" ==> c in Alphabet {}
  lemma PythonListed() ensures forall c :: c in "Python 3.11" ==> c in Alphabet {}
  lemma TestAtListed() ensures forall c :: c in "Test@123" ==> c in Alphabet {}
  lemma SpecialListed() ensures forall c :: c in "Special chars: !@#$%^&*()" ==> c in Alphabet {}
  lemma NumbersListed() ensures forall c :: c in "Numbers: 0123456789" ==> c in Alphabet {}
  lemma MixedListed() ensures forall c :: c in "Mixed: ABC123xyz!?." ==> c in Alphabet {}
  lemma SingleSpaceListed() ensures forall c :: c in "Single space" ==> c in Alphabet {}
  lemma MultipleSpacesListed() ensures forall c :: c in "Multiple   spaces   here" ==> c in Alphabet {}
  lemma LetterListed() ensures forall c :: c in "A" ==> c in Alphabet {}
  lemma SpacesListed() ensures forall c :: c in "  " ==> c in Alphabet {}
  lemma ControlListed() ensures forall c :: c in "\n\t" ==> c in Alphabet {}
  lemma ZerosListed() ensures forall c :: c in "00" ==> c in Alphabet {}

  /** All eight sample sentences pass the round-trip test. */
  lemma TestCasesPass()
    ensures forall k :: 0 <= k < |TestCases| ==> RoundTripVerdict(TestCases[k]) == Passed
  {
    forall k | 0 <= k < |TestCases| ensures RoundTripVerdict(TestCases[k]) == Passed {
      if k == 0 {
        HelloWorldListed();
        PassesIfListed(TestCases[0]);
      } else if k == 1 {
        PythonListed();
        PassesIfListed(TestCases[1]);
      } else if k == 2 {
        TestAtListed();
        PassesIfListed(TestCases[2]);
      } else if k == 3 {
        SpecialListed();
        PassesIfListed(TestCases[3]);
      } else if k == 4 {
        NumbersListed();
        PassesIfListed(TestCases[4]);
      } else if k == 5 {
        MixedListed();
        PassesIfListed(TestCases[5]);
      } else if k == 6 {
        SingleSpaceListed();
        PassesIfListed(TestCases[6]);
      } else {
        MultipleSpacesListed();
        PassesIfListed(TestCases[7]);
      }
    }
  }

  /** All five edge cases pass the round-trip test. */
  lemma EdgeCasesPass()
    ensures forall k :: 0 <= k < |EdgeCases| ==> RoundTripVerdict(EdgeCases[k]) == Passed
  {
    forall k | 0 <= k < |EdgeCases| ensures RoundTripVerdict(EdgeCases[k]) == Passed {
      if k == 0 {
        PassesIfListed(EdgeCases[0]);
      } else if k == 1 {
        LetterListed();
        PassesIfListed(EdgeCases[1]);
      } else if k == 2 {
        SpacesListed();
        PassesIfListed(EdgeCases[2]);
      } else if k == 3 {
        ControlListed();
        PassesIfListed(EdgeCases[3]);
      } else {
        ZerosListed();
        PassesIfListed(EdgeCases[4]);
      }
    }
  }

  /** "Hi" encodes to "0734". */
  lemma EncodeHi()
    ensures Encoding("Hi") == Ok("0734")
  {
    HiText();
    HiCode();
    assert CleanInput("Hi") == "Hi";
    EncodesSpelled("Hi", [7, 34], "0734");
  }

  /** "A  B" is cleaned to "A B" and encodes to "009401". */
  lemma EncodeSpaceRun()
    ensures CleanInput("A  B") == "A B" && Encoding("A  B") == Ok("009401")
  {
    ABText();
    ABCode();
    assert CleanInput("A  B") == "A B";
    EncodesSpelled("A  B", [0, 94, 1], "009401");
  }

  /** A run of spaces is cleaned to one space, which encodes to "94" and
      decodes back to one space. */
  lemma OnlySpaces()
    ensures CleanInput("  ") == " " && Encoding("  ") == Ok("94") && Decoding("94") == Ok(" ")
  {
    SpaceText();
    SpaceCode();
    assert CleanInput("  ") == " ";
    EncodesSpelled("  ", [94], "94");
    DecodesSpelled("94", [94], " ");
  }

  /** Newline and tab are not spaces: they are kept, encode to "9695" and
      decode back unchanged. */
  lemma ControlCharacters()
    ensures CleanInput("\n\t") == "\n\t" && Encoding("\n\t") == Ok("9695") && Decoding("9695") == Ok("\n\t")
  {
    ControlText();
    ControlCode();
    assert CleanInput("\n\t") == "\n\t";
    EncodesSpelled("\n\t", [96, 95], "9695");
    DecodesSpelled("9695", [96, 95], "\n\t");
  }

  /** Digits are characters of the table too: "00" encodes to "5252" and
      decodes back to "00". */
  lemma DigitText()
    ensures Encoding("00") == Ok("5252") && Decoding("5252") == Ok("00")
  {
    ZerosText();
    ZerosCode();
    assert CleanInput("00") == "00";
    EncodesSpelled("00", [52, 52], "5252");
    DecodesSpelled("5252", [52, 52], "00");
  }

  lemma MultipleSpacesSource()
    ensures "Multiple   spaces   here" == "Multiple" + "   " + "spaces   here"
  {
    var t := "Multiple   spaces   here";
    Split3(t, 8, 11);
    assert t[..8] == "Multiple";
    assert t[8] == ' ' && t[9] == ' ' && t[10] == ' ';
    assert t[8..11] == "   ";
    assert t[11..] == "spaces   here";
  }

  lemma MultipleSpacesResult()
    ensures "Multiple spaces here" == "Multiple" + [' '] + "spaces here"
  {
    var c := "Multiple spaces here";
    Split3(c, 8, 9);
    assert c[..8] == "Multiple";
    assert c[8..9] == [' '];
    assert c[9..] == "spaces here";
  }

  lemma SpacesHereClean()
    ensures CleanInput("spaces   here") == "spaces here"
  {
    CleanInputFixpoint("here");
    CleanWordRun("spaces", "   ", "here");
    assert "spaces" + "   " + "here" == "spaces   here";
    assert "spaces" + [' '] + "here" == "spaces here";
  }

  lemma MultipleSpacesPieces()
    ensures ' ' !in "Multiple" && (forall ch :: ch in "   " ==> ch == ' ') && "spaces   here"[0] != ' '
  {
  }

  lemma MultipleSpacesClean()
    ensures CleanInput("Multiple   spaces   here") == "Multiple spaces here"
  {
    MultipleSpacesSource();
    MultipleSpacesResult();
    SpacesHereClean();
    MultipleSpacesPieces();
    CleanParts("Multiple   spaces   here", "Multiple", "   ", "spaces   here", "spaces here", "Multiple spaces here");
  }

  /** A text written with characters of the table comes back from the round
      trip as its cleaned form. */
  lemma RoundTripListed(text: string, cleaned: string)
    requires forall c :: c in text ==> c in Alphabet
    requires CleanInput(text) == cleaned
    ensures Encoding(text).Ok? && Decoding(Encoding(text).value) == Ok(cleaned)
  {
    AlphabetInKeys();
    EncodingSuccess(text);
    RoundTrip(text, Encoding(text).value);
  }

  /** The runs of three spaces in "Multiple   spaces   here" are collapsed,
      and the round trip gives back "Multiple spaces here". */
  lemma MultipleSpaces()
    ensures CleanInput("Multiple   spaces   here") == "Multiple spaces here"
    ensures Encoding("Multiple   spaces   here").Ok?
    ensures Decoding(Encoding("Multiple   spaces   here").value) == Ok("Multiple spaces here")
  {
    MultipleSpacesClean();
    MultipleSpacesListed();
    RoundTripListed("Multiple   spaces   here", "Multiple spaces here");
  }

  lemma HiThereClean()
    ensures CleanInput("Hi there") == "Hi there"
  {
    CleanInputFixpoint("there");
    CleanWordRun("Hi", " ", "there");
    assert "Hi" + " " + "there" == "Hi there";
  }

  /** A code of digits only, of odd length, is rejected for its length. */
  lemma OddDigits(code: string, half: nat)
    requires StripNonDigits(code) == code && |code| == 2 * half + 1
    ensures Decoding(code) == Err(InvalidLength)
  {
    OddMod(half);
    DecodingOddLength(code);
  }

  // Parity is kept in its own lemma: stated inline next to `Decoding`, the
  // modulus makes the query run out of resource.
  lemma OddMod(half: nat)
    ensures (2 * half + 1) % 2 == 1
  {
  }

  lemma HelloCommentDigits()
    ensures StripNonDigits("071430374115408") == "071430374115408"
  {
    StripNonDigitsOfDigits("071430374115408");
  }

  /** The code beside the "Hello!" comment has 15 digits, so `decode`
      rejects it with the length error. */
  lemma ManualHelloAsWritten()
    ensures Decoding("071430374115408") == Err(InvalidLength)
  {
    HelloCommentDigits();
    OddDigits("071430374115408", 7);
  }

  /** The code beside the "Hi there" comment decodes to "HelhoPoP It". */
  lemma ManualHiThereAsWritten()
    ensures Decoding("0730373340154015940845") == Ok("HelhoPoP It")
  {
    HelhoPoPText();
    HelhoPoPCode();
    DecodesSpelled("0730373340154015940845", [7, 30, 37, 33] + [40, 15, 40, 15] + [94, 8, 45], "HelhoPoP It");
  }

  /** The code of "Hello!" is "073037374065", and it decodes back. */
  lemma IntendedHello()
    ensures Encoding("Hello!") == Ok("073037374065") && Decoding("073037374065") == Ok("Hello!")
  {
    HelloText();
    HelloCode();
    assert CleanInput("Hello!") == "Hello!";
    EncodesSpelled("Hello!", [7, 30, 37, 37] + [40, 65], "073037374065");
    DecodesSpelled("073037374065", [7, 30, 37, 37] + [40, 65], "Hello!");
  }

  /** The code of "Hi there" is "0734944533304330", and it decodes back. */
  lemma IntendedHiThere()
    ensures Encoding("Hi there") == Ok("0734944533304330") && Decoding("0734944533304330") == Ok("Hi there")
  {
    HiThereText();
    HiThereCode();
    HiThereClean();
    EncodesSpelled("Hi there", [7, 34, 94, 45] + [33, 30, 43, 30], "0734944533304330");
    DecodesSpelled("0734944533304330", [7, 34, 94, 45] + [33, 30, 43, 30], "Hi there");
  }
}
