/** Escaping and unescaping with a single escape character: `Escape` and
    `Unescape` of src/StringUtils.cpp. */
module Escaping {

  /** The piece `Escape` emits for one input character. */
  function EscapePiece(c: char, escapeCharacter: char, charactersToEscape: set<char>): string {
    if c in charactersToEscape then [escapeCharacter, c] else [c]
  }

  /** Specification of `Escape`: every character of the set gets the escape
      character in front of it. */
  function Escaped(s: string, escapeCharacter: char, charactersToEscape: set<char>): string {
    if s == [] then []
    else
      Escaped(s[..|s| - 1], escapeCharacter, charactersToEscape)
      + EscapePiece(s[|s| - 1], escapeCharacter, charactersToEscape)
  }

  /** How many characters of `s` lie in `chars`. */
  function CountIn(s: string, chars: set<char>): nat {
    if s == [] then 0 else (if s[0] in chars then 1 else 0) + CountIn(s[1..], chars)
  }

  /** Escape (src/StringUtils.cpp:114-124). */
  method Escape(s: string, escapeCharacter: char, charactersToEscape: set<char>) returns (output: string)
    ensures output == Escaped(s, escapeCharacter, charactersToEscape)
  {
    output := [];
    for i := 0 to |s|
      invariant output == Escaped(s[..i], escapeCharacter, charactersToEscape)
    {
      assert s[..i + 1][..i] == s[..i];
      if s[i] in charactersToEscape {
        output := output + [escapeCharacter];
      }
      output := output + [s[i]];
    }
    assert s[..|s|] == s;
  }

  /** The state of Unescape's scan: the text emitted so far and the
      escape-pending flag. */
  datatype UnescapeState = UnescapeState(output: string, escape: bool)

  /** One step of Unescape: an escape character that is not itself escaped
      is swallowed and sets the flag; anything else is copied and clears it. */
  function UnescapeStep(st: UnescapeState, c: char, escapeCharacter: char): UnescapeState {
    if c == escapeCharacter && !st.escape then UnescapeState(st.output, true)
    else UnescapeState(st.output + [c], false)
  }

  /** The state after Unescape has read all of `s`. */
  function UnescapeScan(s: string, escapeCharacter: char): UnescapeState {
    if s == [] then UnescapeState([], false)
    else UnescapeStep(UnescapeScan(s[..|s| - 1], escapeCharacter), s[|s| - 1], escapeCharacter)
  }

  /** Specification of `Unescape`. */
  function Unescaped(s: string, escapeCharacter: char): string {
    UnescapeScan(s, escapeCharacter).output
  }

  /** Unescape (src/StringUtils.cpp:126-141). */
  method Unescape(s: string, escapeCharacter: char) returns (output: string)
    ensures output == Unescaped(s, escapeCharacter)
  {
    output := [];
    var escape := false;
    for i := 0 to |s|
      invariant UnescapeState(output, escape) == UnescapeScan(s[..i], escapeCharacter)
    {
      assert s[..i + 1][..i] == s[..i];
      if escapeCharacter == s[i] && !escape {
        escape := true;
      } else {
        output := output + [s[i]];
        escape := false;
      }
    }
    assert s[..|s|] == s;
  }

  lemma {:induction false} CountInAppend(a: string, b: string, chars: set<char>)
    ensures CountIn(a + b, chars) == CountIn(a, chars) + CountIn(b, chars)
  {
    if a != [] {
      assert (a + b)[1..] == a[1..] + b;
      CountInAppend(a[1..], b, chars);
    } else {
      assert a + b == b;
    }
  }

  /** Escape works character by character, so it distributes over concatenation. */
  lemma {:induction false} EscapedAppend(a: string, b: string, escapeCharacter: char, charactersToEscape: set<char>)
    ensures Escaped(a + b, escapeCharacter, charactersToEscape) ==
      Escaped(a, escapeCharacter, charactersToEscape) + Escaped(b, escapeCharacter, charactersToEscape)
  {
    if b == [] {
      assert a + b == a;
    } else {
      assert (a + b)[..|a + b| - 1] == a + b[..|b| - 1];
      EscapedAppend(a, b[..|b| - 1], escapeCharacter, charactersToEscape);
    }
  }

  /** A string with no character of the set comes out of Escape unchanged. */
  lemma {:induction false} EscapedNothing(s: string, escapeCharacter: char, charactersToEscape: set<char>)
    requires forall k | 0 <= k < |s| :: s[k] !in charactersToEscape
    ensures Escaped(s, escapeCharacter, charactersToEscape) == s
  {
    if s != [] {
      EscapedNothing(s[..|s| - 1], escapeCharacter, charactersToEscape);
      assert s == s[..|s| - 1] + [s[|s| - 1]];
    }
  }

  /** Escape adds exactly one character per character of the set. */
  lemma {:induction false} EscapedLength(s: string, escapeCharacter: char, charactersToEscape: set<char>)
    ensures |Escaped(s, escapeCharacter, charactersToEscape)| == |s| + CountIn(s, charactersToEscape)
  {
    if s != [] {
      var init, last := s[..|s| - 1], s[|s| - 1];
      EscapedLength(init, escapeCharacter, charactersToEscape);
      assert s == init + [last];
      CountInAppend(init, [last], charactersToEscape);
    }
  }

  /** Scanning a concatenation continues from the state reached on its prefix. */
  lemma {:induction false} UnescapeScanAppend(a: string, b: string, escapeCharacter: char)
    requires |b| <= 2
    ensures UnescapeScan(a + b, escapeCharacter) ==
      if b == [] then UnescapeScan(a, escapeCharacter)
      else if |b| == 1 then UnescapeStep(UnescapeScan(a, escapeCharacter), b[0], escapeCharacter)
      else UnescapeStep(UnescapeStep(UnescapeScan(a, escapeCharacter), b[0], escapeCharacter), b[1], escapeCharacter)
  {
    if b == [] {
      assert a + b == a;
    } else if |b| == 1 {
      assert (a + b)[..|a + b| - 1] == a;
    } else {
      assert (a + b)[..|a + b| - 1] == a + [b[0]];
      assert (a + [b[0]])[..|a|] == a;
    }
  }

  /** Unescape reads one piece of Escape's output back as the character
      it came from, when no escape is pending before it. */
  lemma UnescapePiece(p: string, c: char, escapeCharacter: char, charactersToEscape: set<char>)
    requires escapeCharacter in charactersToEscape
    requires !UnescapeScan(p, escapeCharacter).escape
    ensures UnescapeScan(p + EscapePiece(c, escapeCharacter, charactersToEscape), escapeCharacter) ==
      UnescapeState(UnescapeScan(p, escapeCharacter).output + [c], false)
  {
    UnescapeScanAppend(p, EscapePiece(c, escapeCharacter, charactersToEscape), escapeCharacter);
  }

  /** Unescape undoes Escape whenever the escape character is itself one of
      the characters escaped; the scan also ends with no escape pending. */
  lemma {:induction false} UnescapeEscaped(s: string, escapeCharacter: char, charactersToEscape: set<char>)
    requires escapeCharacter in charactersToEscape
    ensures UnescapeScan(Escaped(s, escapeCharacter, charactersToEscape), escapeCharacter) == UnescapeState(s, false)
    ensures Unescaped(Escaped(s, escapeCharacter, charactersToEscape), escapeCharacter) == s
  {
    if s != [] {
      var init, last := s[..|s| - 1], s[|s| - 1];
      assert s == init + [last];
      UnescapeEscaped(init, escapeCharacter, charactersToEscape);
      var e := Escaped(init, escapeCharacter, charactersToEscape);
      assert Escaped(s, escapeCharacter, charactersToEscape) == e + EscapePiece(last, escapeCharacter, charactersToEscape);
      UnescapePiece(e, last, escapeCharacter, charactersToEscape);
      assert UnescapeScan(Escaped(s, escapeCharacter, charactersToEscape), escapeCharacter) == UnescapeState(s, false);
    } else {
      assert Escaped(s, escapeCharacter, charactersToEscape) == [];
    }
  }

  /** Without the escape character in the set the round trip can fail: a
      lone `^` passes through Escape unchanged and Unescape then drops it. */
  lemma RoundTripNeedsEscapeCharacter()
    ensures Escaped("^", '^', {}) == "^"
    ensures Unescaped(Escaped("^", '^', {}), '^') == ""
  {
    assert Escaped("^", '^', {}) == Escaped([], '^', {}) + "^";
  }

  /** Unescape never lengthens its input. */
  lemma {:induction false} UnescapedShorter(s: string, escapeCharacter: char)
    ensures |Unescaped(s, escapeCharacter)| <= |s|
  {
    if s != [] {
      UnescapedShorter(s[..|s| - 1], escapeCharacter);
    }
  }

  /** Three runs of plain text, each followed by a character of the set. */
  lemma EscapedThreeRuns(a: string, x: char, b: string, y: char, c: string, z: char,
                         escapeCharacter: char, charactersToEscape: set<char>)
    requires forall k | 0 <= k < |a| :: a[k] !in charactersToEscape
    requires forall k | 0 <= k < |b| :: b[k] !in charactersToEscape
    requires forall k | 0 <= k < |c| :: c[k] !in charactersToEscape
    requires x in charactersToEscape && y in charactersToEscape && z in charactersToEscape
    ensures Escaped(a + [x] + b + [y] + c + [z], escapeCharacter, charactersToEscape) ==
      a + [escapeCharacter, x] + b + [escapeCharacter, y] + c + [escapeCharacter, z]
  {
    var e, chars := escapeCharacter, charactersToEscape;
    EscapedNothing(a, e, chars);
    EscapedNothing(b, e, chars);
    EscapedNothing(c, e, chars);
    assert Escaped([x], e, chars) == [e, x];
    assert Escaped([y], e, chars) == [e, y];
    assert Escaped([z], e, chars) == [e, z];
    EscapedAppend(a, [x], e, chars);
    EscapedAppend(a + [x], b, e, chars);
    EscapedAppend(a + [x] + b, [y], e, chars);
    EscapedAppend(a + [x] + b + [y], c, e, chars);
    EscapedAppend(a + [x] + b + [y] + c, [z], e, chars);
  }

  /** The example of the source's unit test (test/src/StringUtilsTests.cpp:68-71). */
  lemma EscapeExample()
    ensures Escaped("Hello," + " " + "W" + "^" + "orld" + "!", '^', {' ', '!', '^'}) ==
      "Hello," + "^ " + "W" + "^^" + "orld" + "^!"
  {
    EscapedThreeRuns("Hello,", ' ', "W", '^', "orld", '!', '^', {' ', '!', '^'});
  }

  /** The example of the source's unit test (test/src/StringUtilsTests.cpp:73-76). */
  lemma UnescapeExample()
    ensures Unescaped("Hello," + "^ " + "W" + "^^" + "orld" + "^!", '^') ==
      "Hello," + " " + "W" + "^" + "orld" + "!"
  {
    EscapeExample();
    UnescapeEscaped("Hello," + " " + "W" + "^" + "orld" + "!", '^', {' ', '!', '^'});
  }
}
