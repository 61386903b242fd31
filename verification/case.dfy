/** Character-wise transformations: lower-casing (`Tolower`,
    `NormalizeCaseInsensitiveString`) and whitespace removal
    (`StripMarginWhitespace`) of src/StringUtils.cpp, in the "C" locale. */
module CharacterMaps {

  /** `isupper` of the "C" locale. */
  predicate IsUpper(c: char) {
    'A' <= c <= 'Z'
  }

  /** `tolower` of the "C" locale: only the ASCII capitals change. */
  function LowerChar(c: char): (r: char)
    ensures !IsUpper(r)
    ensures IsUpper(c) ==> r as int == c as int + 32
    ensures !IsUpper(c) ==> r == c
  {
    if IsUpper(c) then (c as int + 32) as char else c
  }

  /** Specification of `Tolower`: every character mapped by `LowerChar`. */
  function Lowered(s: string): string {
    if s == [] then [] else Lowered(s[..|s| - 1]) + [LowerChar(s[|s| - 1])]
  }

  /** Tolower (src/StringUtils.cpp:213-218); the `ostringstream` is the
      string the loop appends to. */
  method Tolower(s: string) returns (output: string)
    ensures output == Lowered(s)
  {
    output := [];
    for i := 0 to |s|
      invariant output == Lowered(s[..i])
    {
      assert s[..i + 1][..i] == s[..i];
      output := output + [LowerChar(s[i])];
    }
    assert s[..|s|] == s;
  }

  /** NormalizeCaseInsensitiveString (src/StringUtils.cpp:358-363): the
      same mapping, written by the source as a second loop of its own. */
  method NormalizeCaseInsensitiveString(inputString: string) returns (outputString: string)
    ensures outputString == Lowered(inputString)
  {
    outputString := [];
    for i := 0 to |inputString|
      invariant outputString == Lowered(inputString[..i])
    {
      assert inputString[..i + 1][..i] == inputString[..i];
      outputString := outputString + [LowerChar(inputString[i])];
    }
    assert inputString[..|inputString|] == inputString;
  }

  /** `Lowered` keeps the length and maps each position on its own. */
  lemma {:induction false} LoweredFacts(s: string)
    ensures |Lowered(s)| == |s|
    ensures forall i | 0 <= i < |s| :: Lowered(s)[i] == LowerChar(s[i])
  {
    if s != [] {
      LoweredFacts(s[..|s| - 1]);
    }
  }

  /** No capital is left. */
  lemma NoUpperLeft(s: string)
    ensures forall i | 0 <= i < |Lowered(s)| :: !IsUpper(Lowered(s)[i])
  {
    LoweredFacts(s);
  }

  /** Lower-casing works piece by piece. */
  lemma LoweredAppend(a: string, b: string)
    ensures Lowered(a + b) == Lowered(a) + Lowered(b)
  {
    LoweredFacts(a);
    LoweredFacts(b);
    LoweredFacts(a + b);
  }

  /** Lower-casing twice is lower-casing once. */
  lemma LoweredIdempotent(s: string)
    ensures Lowered(Lowered(s)) == Lowered(s)
  {
    LoweredFacts(s);
    LoweredFacts(Lowered(s));
  }

  /** Text without capitals is its own normal form. */
  lemma LoweredUnchanged(s: string)
    ensures Lowered(s) == s <==> forall i | 0 <= i < |s| :: !IsUpper(s[i])
  {
    LoweredFacts(s);
    if Lowered(s) == s {
      NoUpperLeft(s);
    }
  }

  /** Two characters that are equal up to the case of an ASCII letter. */
  predicate SameIgnoringCase(c: char, d: char) {
    c == d
    || (IsUpper(c) && d as int == c as int + 32)
    || (IsUpper(d) && c as int == d as int + 32)
  }

  /** Two characters have the same lower case exactly when they are equal
      up to ASCII case. */
  lemma LowerCharIffSameIgnoringCase(c: char, d: char)
    ensures LowerChar(c) == LowerChar(d) <==> SameIgnoringCase(c, d)
  {
    if LowerChar(c) == LowerChar(d) {
      assert LowerChar(c) as int == LowerChar(d) as int;
    }
  }

  /** What the normal form is for: two strings have the same normal form
      exactly when they agree position by position up to ASCII case. */
  lemma NormalFormIffSameIgnoringCase(s: string, t: string)
    ensures Lowered(s) == Lowered(t) <==>
      |s| == |t| && forall i | 0 <= i < |s| :: SameIgnoringCase(s[i], t[i])
  {
    LoweredFacts(s);
    LoweredFacts(t);
    if Lowered(s) == Lowered(t) {
      forall i | 0 <= i < |s| ensures SameIgnoringCase(s[i], t[i]) {
        assert Lowered(s)[i] == Lowered(t)[i];
        LowerCharIffSameIgnoringCase(s[i], t[i]);
      }
    }
    if |s| == |t| && forall i | 0 <= i < |s| :: SameIgnoringCase(s[i], t[i]) {
      forall i | 0 <= i < |s| ensures Lowered(s)[i] == Lowered(t)[i] {
        LowerCharIffSameIgnoringCase(s[i], t[i]);
      }
    }
  }

  /** `isspace` of the "C" locale: space, tab, line feed, vertical tab,
      form feed and carriage return. */
  predicate IsSpace(c: char) {
    c == ' ' || '\t' <= c <= '\r'
  }

  /** Specification of `StripMarginWhitespace`: the text with every
      white-space character removed, wherever it stands. */
  function Stripped(s: string): string {
    if s == [] then []
    else if IsSpace(s[|s| - 1]) then Stripped(s[..|s| - 1])
    else Stripped(s[..|s| - 1]) + [s[|s| - 1]]
  }

  /** StripMarginWhitespace (src/StringUtils.cpp:365-373). */
  method StripMarginWhitespace(inputString: string) returns (outputString: string)
    ensures outputString == Stripped(inputString)
  {
    outputString := [];
    for i := 0 to |inputString|
      invariant outputString == Stripped(inputString[..i])
    {
      assert inputString[..i + 1][..i] == inputString[..i];
      if !IsSpace(inputString[i]) {
        outputString := outputString + [inputString[i]];
      }
    }
    assert inputString[..|inputString|] == inputString;
  }

  /** No white space is left, and every other character is kept as often
      as it occurs. */
  lemma {:induction false} StrippedFacts(s: string)
    ensures |Stripped(s)| <= |s|
    ensures forall i | 0 <= i < |Stripped(s)| :: !IsSpace(Stripped(s)[i])
    ensures forall c | !IsSpace(c) :: multiset(Stripped(s))[c] == multiset(s)[c]
  {
    if s != [] {
      var init := s[..|s| - 1];
      StrippedFacts(init);
      assert s == init + [s[|s| - 1]];
    }
  }

  /** Removing white space works piece by piece. */
  lemma {:induction false} StrippedAppend(a: string, b: string)
    ensures Stripped(a + b) == Stripped(a) + Stripped(b)
  {
    if b != [] {
      var init := b[..|b| - 1];
      StrippedAppend(a, init);
      assert (a + b)[..|a + b| - 1] == a + init;
    } else {
      assert a + b == a;
    }
  }

  /** A string is left as it is exactly when it holds no white space. */
  lemma {:induction false} StrippedUnchanged(s: string)
    ensures Stripped(s) == s <==> forall i | 0 <= i < |s| :: !IsSpace(s[i])
  {
    StrippedFacts(s);
    if forall i | 0 <= i < |s| :: !IsSpace(s[i]) {
      StrippedOfClean(s);
    }
  }

  lemma {:induction false} StrippedOfClean(s: string)
    requires forall i | 0 <= i < |s| :: !IsSpace(s[i])
    ensures Stripped(s) == s
  {
    if s != [] {
      StrippedOfClean(s[..|s| - 1]);
    }
  }

  /** Removing white space twice is removing it once. */
  lemma StrippedIdempotent(s: string)
    ensures Stripped(Stripped(s)) == Stripped(s)
  {
    StrippedFacts(s);
    StrippedOfClean(Stripped(s));
  }

  /** `Lowered` read off position by position. */
  lemma LoweredIs(s: string, t: string)
    requires |t| == |s|
    requires forall i | 0 <= i < |s| :: t[i] == LowerChar(s[i])
    ensures Lowered(s) == t
  {
    LoweredFacts(s);
  }

  /** The first vectors of the source's unit test of `Tolower`
      (test/src/StringUtilsTests.cpp:99-105). */
  lemma TolowerWordExamples()
    ensures Lowered("Hello") == "hello"
    ensures Lowered("hello") == "hello"
    ensures Lowered("heLLo") == "hello"
    ensures Lowered("eXAmplE") == "example"
    ensures Lowered("example") == "example"
    ensures Lowered("EXAMPLE") == "example"
  {
    LoweredIs("Hello", "hello");
    LoweredIs("hello", "hello");
    LoweredIs("heLLo", "hello");
    LoweredIs("eXAmplE", "example");
    LoweredIs("example", "example");
    LoweredIs("EXAMPLE", "example");
  }

  /** The vectors with a digit in the source's unit test of `Tolower`
      (test/src/StringUtilsTests.cpp:106-109). */
  lemma TolowerDigitExamples()
    ensures Lowered("foo1BAR") == "foo1bar"
    ensures Lowered("fOo1bAr") == "foo1bar"
    ensures Lowered("foo1bar") == "foo1bar"
    ensures Lowered("FOO1BAR") == "foo1bar"
  {
    LoweredIs("foo1BAR", "foo1bar");
    LoweredIs("fOo1bAr", "foo1bar");
    LoweredIs("foo1bar", "foo1bar");
    LoweredIs("FOO1BAR", "foo1bar");
  }

  /** The first vectors of the source's unit test of
      `NormalizeCaseInsensitiveString` (test/src/StringUtilsTests.cpp:201-205). */
  lemma NormalizeExamples()
    ensures Lowered("example") == "example"
    ensures Lowered("eXAMple") == "example"
    ensures Lowered("EXAMPLE") == "example"
    ensures Lowered("exAMPLE") == "example"
  {
    LoweredIs("example", "example");
    LoweredIs("eXAMple", "example");
    LoweredIs("EXAMPLE", "example");
    LoweredIs("exAMPLE", "example");
  }

  /** The remaining vectors of the same test
      (test/src/StringUtilsTests.cpp:206-208). */
  lemma NormalizeMoreExamples()
    ensures Lowered("EXAmple") == "example"
    ensures Lowered("eXampLe") == "example"
    ensures Lowered("ExamplE") == "example"
  {
    LoweredIs("EXAmple", "example");
    LoweredIs("eXampLe", "example");
    LoweredIs("ExamplE", "example");
  }

  /** A single blank is removed. */
  lemma StrippedBlank(a: string, b: string)
    ensures Stripped(a + " " + b) == Stripped(a) + Stripped(b)
  {
    StrippedAppend(a, " ");
    StrippedAppend(a + " ", b);
    assert Stripped(" ") == [];
  }

  /** A word followed by a blank. */
  lemma StrippedTrailing(a: string)
    requires forall i | 0 <= i < |a| :: !IsSpace(a[i])
    ensures Stripped(a + " ") == a
  {
    StrippedOfClean(a);
    StrippedBlank(a, []);
    assert a + " " + [] == a + " ";
  }

  /** Two words with a blank between them. */
  lemma StrippedBetween(a: string, b: string)
    requires forall i | 0 <= i < |a| :: !IsSpace(a[i])
    requires forall i | 0 <= i < |b| :: !IsSpace(b[i])
    ensures Stripped(a + " " + b) == a + b
  {
    StrippedOfClean(a);
    StrippedOfClean(b);
    StrippedBlank(a, b);
  }

  /** A leading blank is removed. */
  lemma StrippedLeading(a: string)
    ensures Stripped(" " + a) == Stripped(a)
  {
    StrippedBlank([], a);
    assert [] + " " + a == " " + a;
  }

  /** Two words with blanks around and between them. */
  lemma StrippedAround(a: string, b: string)
    requires forall i | 0 <= i < |a| :: !IsSpace(a[i])
    requires forall i | 0 <= i < |b| :: !IsSpace(b[i])
    ensures Stripped(" " + a + " " + b + " ") == a + b
  {
    StrippedOfClean(a);
    StrippedOfClean(b);
    StrippedLeading(a);
    StrippedBlank(" " + a, b);
    StrippedBlank(" " + a + " " + b, []);
    assert " " + a + " " + b + " " + [] == " " + a + " " + b + " ";
  }

  /** A word with a blank on each side. */
  lemma StrippedPadded(a: string)
    requires forall i | 0 <= i < |a| :: !IsSpace(a[i])
    ensures Stripped(" " + a + " ") == a
  {
    StrippedTrailing(a);
    StrippedLeading(a + " ");
    assert " " + (a + " ") == " " + a + " ";
  }

  /** The vectors of the source's unit test of `StripMarginWhitespace`
      (test/src/StringUtilsTests.cpp:211-216). */
  lemma StrippedExamples()
    ensures Stripped("example" + " ") == "example"
    ensures Stripped("example" + " " + ",example") == "example" + ",example"
    ensures Stripped(" " + "example" + " ") == "example"
    ensures Stripped(" " + "example," + " " + "example" + " ") == "example," + "example"
  {
    StrippedTrailing("example");
    StrippedBetween("example", ",example");
    StrippedPadded("example");
    StrippedAround("example,", "example");
  }
}
