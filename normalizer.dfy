/** `clean_input`: the normalisation applied before encoding. The source calls
    `re.sub(r' +', ' ', text)`; here the regular-expression scan is written
    out as a recursive function over the characters. */
module Normalizer {

  /** `s` without its leading run of spaces. */
  function DropSpaces(s: string): (r: string)
    ensures |r| <= |s|
    ensures r == [] || r[0] != ' '
    ensures r == s[|s| - |r|..]
    ensures forall i :: 0 <= i < |s| - |r| ==> s[i] == ' '
  {
    if s != [] && s[0] == ' ' then DropSpaces(s[1..]) else s
  }

  /** `clean_input`: each maximal run of U+0020 becomes a single space; every
      other character, tab, newline and carriage return included, is kept. */
  function CleanInput(text: string): (r: string)
    ensures |r| <= |text|
    ensures text != [] ==> r != [] && r[0] == text[0]
    decreases |text|
  {
    if text == [] then []
    else if text[0] == ' ' then [' '] + CleanInput(DropSpaces(text[1..]))
    else [text[0]] + CleanInput(text[1..])
  }

  /** No two adjacent spaces. */
  predicate NoSpaceRun(s: string) {
    forall i :: 0 <= i < |s| - 1 ==> !(s[i] == ' ' && s[i + 1] == ' ')
  }

  /** Reference definition, independent of the run-by-run scan: drop every
      space that is directly followed by another space. */
  function Squeeze(s: string): string {
    if |s| < 2 then s
    else if s[0] == ' ' && s[1] == ' ' then Squeeze(s[1..])
    else [s[0]] + Squeeze(s[1..])
  }

  /** `clean_input` agrees with the reference definition on every input. */
  lemma {:induction false} CleanInputIsSqueeze(s: string)
    ensures CleanInput(s) == Squeeze(s)
    decreases |s|
  {
    if s == [] {
    } else if s[0] == ' ' {
      if |s| >= 2 && s[1] == ' ' {
        assert DropSpaces(s[1..]) == DropSpaces(s[2..]);
        assert s[1..][1..] == s[2..];
        CleanInputIsSqueeze(s[1..]);
      } else {
        assert DropSpaces(s[1..]) == s[1..];
        CleanInputIsSqueeze(s[1..]);
      }
    } else {
      CleanInputIsSqueeze(s[1..]);
    }
  }

  /** The result of `clean_input` never holds two adjacent spaces. */
  lemma {:induction false} CleanInputNoSpaceRun(s: string)
    ensures NoSpaceRun(CleanInput(s))
    decreases |s|
  {
    if s == [] {
    } else if s[0] == ' ' {
      var rest := DropSpaces(s[1..]);
      CleanInputNoSpaceRun(rest);
      assert CleanInput(s) == [' '] + CleanInput(rest);
    } else {
      CleanInputNoSpaceRun(s[1..]);
      assert CleanInput(s) == [s[0]] + CleanInput(s[1..]);
    }
  }

  /** `clean_input` leaves a string unchanged exactly when it has no run of
      two or more spaces. */
  lemma {:induction false} CleanInputFixpoint(s: string)
    ensures CleanInput(s) == s <==> NoSpaceRun(s)
    decreases |s|
  {
    if NoSpaceRun(s) {
      if s != [] {
        assert NoSpaceRun(s[1..]) by {
          forall i | 0 <= i < |s[1..]| - 1 ensures !(s[1..][i] == ' ' && s[1..][i + 1] == ' ') {
            assert s[1..][i] == s[i + 1] && s[1..][i + 1] == s[i + 2];
          }
        }
        CleanInputFixpoint(s[1..]);
        if s[0] == ' ' {
          assert s[1..] == [] || s[1] != ' ';
          assert DropSpaces(s[1..]) == s[1..];
        }
      }
    } else {
      CleanInputNoSpaceRun(s);
    }
  }

  /** Applying `clean_input` twice is the same as applying it once. */
  lemma CleanInputIdempotent(s: string)
    ensures CleanInput(CleanInput(s)) == CleanInput(s)
  {
    CleanInputNoSpaceRun(s);
    CleanInputFixpoint(CleanInput(s));
  }

  /** `clean_input` removes characters, it never adds or changes one: the
      result holds exactly the characters the input holds. */
  lemma {:induction false} CleanInputSameCharacters(s: string)
    ensures forall c :: c in CleanInput(s) <==> c in s
    decreases |s|
  {
    if s == [] {
    } else if s[0] == ' ' {
      var rest := DropSpaces(s[1..]);
      CleanInputSameCharacters(rest);
      assert CleanInput(s) == [' '] + CleanInput(rest);
      forall c | c in s ensures c in CleanInput(s) {
        var i :| 0 <= i < |s| && s[i] == c;
        if c != ' ' {
          assert i >= |s| - |rest|;
          assert rest[i - (|s| - |rest|)] == c;
        }
      }
    } else {
      CleanInputSameCharacters(s[1..]);
      assert CleanInput(s) == [s[0]] + CleanInput(s[1..]);
      assert s == [s[0]] + s[1..];
    }
  }

  // ------------------------------------------------- cleaning piece by piece

  // `clean_input` of a concatenation, and of a word followed by a run of
  // spaces. Each unfolding of `CleanInput` at the head of a string is its
  // own small lemma (CleanSpaceHead, CleanOtherHead, with HeadOfAppend and
  // AppendAssoc for the sequence algebra): proved together in one query
  // they are too costly for the verifier.

  /** A leading run of spaces that ends inside `a` is dropped inside `a`. */
  lemma {:induction false} DropSpacesAppend(a: string, b: string)
    requires a != [] && a[|a| - 1] != ' '
    ensures DropSpaces(a + b) == DropSpaces(a) + b
    ensures DropSpaces(a) != [] && DropSpaces(a)[|DropSpaces(a)| - 1] == a[|a| - 1]
  {
    if a[0] == ' ' {
      assert |a| >= 2 && a[1..][|a[1..]| - 1] == a[|a| - 1];
      assert (a + b)[0] == ' ' && (a + b)[1..] == a[1..] + b;
      DropSpacesAppend(a[1..], b);
      assert DropSpaces(a) == DropSpaces(a[1..]);
    } else {
      assert (a + b)[0] == a[0];
    }
  }

  lemma AppendAssoc(p: string, q: string, r: string)
    ensures (p + q) + r == p + (q + r)
  {
  }

  lemma HeadOfAppend(a: string, b: string)
    requires a != []
    ensures (a + b)[0] == a[0] && (a + b)[1..] == a[1..] + b
  {
  }

  lemma CleanSpaceHead(s: string)
    requires s != [] && s[0] == ' '
    ensures CleanInput(s) == [' '] + CleanInput(DropSpaces(s[1..]))
  {
  }

  /** One step of `CleanInputAppend` at a leading space. */
  lemma CleanAppendSpace(a: string, b: string, rest: string)
    requires a != [] && a[0] == ' ' && rest == DropSpaces(a[1..])
    requires DropSpaces(a[1..] + b) == rest + b
    requires CleanInput(rest + b) == CleanInput(rest) + CleanInput(b)
    ensures CleanInput(a + b) == CleanInput(a) + CleanInput(b)
  {
    HeadOfAppend(a, b);
    CleanSpaceHead(a);
    CleanSpaceHead(a + b);
    AppendAssoc([' '], CleanInput(rest), CleanInput(b));
  }

  lemma CleanOtherHead(s: string)
    requires s != [] && s[0] != ' '
    ensures CleanInput(s) == [s[0]] + CleanInput(s[1..])
  {
  }

  /** One step of `CleanInputAppend` at a character other than a space. */
  lemma CleanAppendOther(a: string, b: string)
    requires a != [] && a[0] != ' '
    requires CleanInput(a[1..] + b) == CleanInput(a[1..]) + CleanInput(b)
    ensures CleanInput(a + b) == CleanInput(a) + CleanInput(b)
  {
    HeadOfAppend(a, b);
    CleanOtherHead(a);
    CleanOtherHead(a + b);
    AppendAssoc([a[0]], CleanInput(a[1..]), CleanInput(b));
  }

  /** `clean_input` works piecewise when the first piece does not end in a
      space, since then no run of spaces straddles the cut. */
  lemma {:induction false} CleanInputAppend(a: string, b: string)
    requires a == [] || a[|a| - 1] != ' '
    ensures CleanInput(a + b) == CleanInput(a) + CleanInput(b)
    decreases |a|
  {
    if a == [] {
      assert a + b == b;
    } else if a[0] == ' ' {
      assert |a| >= 2;
      DropSpacesAppend(a[1..], b);
      var rest := DropSpaces(a[1..]);
      CleanInputAppend(rest, b);
      CleanAppendSpace(a, b, rest);
    } else {
      CleanInputAppend(a[1..], b);
      CleanAppendOther(a, b);
    }
  }

  /** A run of spaces in front of a text that does not start with a space
      is dropped entirely. */
  lemma {:induction false} DropRun(run: string, b: string)
    requires forall c :: c in run ==> c == ' '
    requires b == [] || b[0] != ' '
    ensures DropSpaces(run + b) == b
  {
    if run == [] {
      assert run + b == b;
    } else {
      assert run[0] in run;
      assert (run + b)[0] == ' ' && (run + b)[1..] == run[1..] + b;
      assert forall c :: c in run[1..] ==> c in run;
      DropRun(run[1..], b);
    }
  }

  /** A run of spaces at the front is cleaned to one space. */
  lemma CleanRun(run: string, b: string)
    requires run != [] && forall c :: c in run ==> c == ' '
    requires b == [] || b[0] != ' '
    ensures CleanInput(run + b) == [' '] + CleanInput(b)
  {
    assert run[0] in run;
    assert (run + b)[0] == ' ' && (run + b)[1..] == run[1..] + b;
    assert forall c :: c in run[1..] ==> c in run;
    DropRun(run[1..], b);
  }

  /** A word, a run of spaces, and the rest: the word is kept, the run
      becomes one space, and the rest is cleaned on its own. */
  lemma CleanWordRun(a: string, run: string, b: string)
    requires a != [] && ' ' !in a
    requires run != [] && forall c :: c in run ==> c == ' '
    requires b == [] || b[0] != ' '
    ensures CleanInput(a + run + b) == a + [' '] + CleanInput(b)
  {
    assert NoSpaceRun(a) by {
      forall i | 0 <= i < |a| - 1 ensures !(a[i] == ' ' && a[i + 1] == ' ') {
        assert a[i] in a;
      }
    }
    CleanInputFixpoint(a);
    assert a[|a| - 1] in a;
    assert a + run + b == a + (run + b);
    CleanInputAppend(a, run + b);
    CleanRun(run, b);
  }
}
