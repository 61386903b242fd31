/** Extraction of one component of a comma-separated, bracket-nested value:
    `ParseComponent` of src/StringUtils.cpp. */
module Components {

  /** The scanner's variables: the bracket nesting level, whether it is inside
      a double-quoted string, and whether the previous character inside that
      string was a backslash. */
  datatype ScanState = ScanState(level: int, inString: bool, escape: bool)

  /** The state before the first character. */
  const Start := ScanState(1, false, false)

  predicate IsOpener(c: char) {
    c == '[' || c == '{' || c == '(' || c == '<'
  }

  predicate IsCloser(c: char) {
    c == ']' || c == '}' || c == ')' || c == '>'
  }

  /** How one character that does not stop the scan changes the state.
      Inside a string only the escape flag and the closing quote matter;
      outside, a quote opens a string and brackets change the level. */
  function Step(st: ScanState, c: char): ScanState {
    if st.inString then
      if st.escape then ScanState(st.level, true, false)
      else if c == '\\' then ScanState(st.level, true, true)
      else if c == '"' then ScanState(st.level, false, false)
      else st
    else
      if c == '"' then ScanState(st.level, true, st.escape)
      else if IsOpener(c) then ScanState(st.level + 1, false, st.escape)
      else if IsCloser(c) then ScanState(st.level - 1, false, st.escape)
      else st
  }

  /** The state after reading `t` from `st`. */
  function Run(st: ScanState, t: string): ScanState {
    if t == [] then st else Step(Run(st, t[..|t| - 1]), t[|t| - 1])
  }

  /** The state with which the scan reaches position `k` of `s`. */
  function StateAt(s: string, begin: nat, k: nat): ScanState
    requires begin <= k <= |s|
  {
    Run(Start, s[begin..k])
  }

  /** The scan does not read the character at position `k`: the range is
      exhausted, the nesting level has dropped to zero, or `s[k]` is a comma
      at the top level outside a string. */
  predicate Stops(s: string, begin: nat, end: nat, k: nat)
    requires begin <= k <= |s| && end <= |s|
  {
    var st := StateAt(s, begin, k);
    k >= end || st.level <= 0 || (!st.inString && st.level == 1 && s[k] == ',')
  }

  /** `j` is the first position from `begin` on at which the scan stops. */
  ghost predicate IsComponentEnd(s: string, begin: nat, end: nat, j: nat)
    requires end <= |s|
  {
    begin <= j <= |s| && Stops(s, begin, end, j) &&
    forall k | begin <= k < j :: !Stops(s, begin, end, k)
  }

  /** ParseComponent (src/StringUtils.cpp:75-112): the text from `begin` up
      to the first position at which the scan stops. */
  method ParseComponent(s: string, begin: nat, end: nat) returns (r: string)
    requires begin <= |s| && end <= |s|
    ensures begin + |r| <= |s| && r == s[begin..begin + |r|]
    ensures IsComponentEnd(s, begin, end, begin + |r|)
  {
    var inString := false;
    var level := 1;
    var j := begin;
    var escape := false;
    assert s[begin..begin] == [];
    while j < end && level > 0
      invariant begin <= j <= |s|
      invariant ScanState(level, inString, escape) == StateAt(s, begin, j)
      invariant forall k | begin <= k < j :: !Stops(s, begin, end, k)
      decreases end - j
    {
      assert s[begin..j + 1][..j - begin] == s[begin..j];
      if inString {
        if escape {
          escape := false;
        } else {
          if s[j] == '\\' {
            escape := true;
          } else if s[j] == '"' {
            inString := false;
          }
        }
      } else {
        if level == 1 && s[j] == ',' {
          break;
        } else if s[j] == '"' {
          inString := true;
        } else if s[j] == '[' || s[j] == '{' || s[j] == '(' || s[j] == '<' {
          level := level + 1;
        } else if s[j] == ']' || s[j] == '}' || s[j] == ')' || s[j] == '>' {
          level := level - 1;
        }
      }
      j := j + 1;
    }
    r := s[begin..j];
  }

  /** Reading a concatenation continues from the state reached on its prefix. */
  lemma {:induction false} RunAppend(st: ScanState, a: string, b: string)
    ensures Run(st, a + b) == Run(Run(st, a), b)
  {
    if b == [] {
      assert a + b == a;
    } else {
      assert (a + b)[..|a + b| - 1] == a + b[..|b| - 1];
      RunAppend(st, a, b[..|b| - 1]);
    }
  }

  lemma StateAtNext(s: string, begin: nat, k: nat)
    requires begin <= k < |s|
    ensures StateAt(s, begin, k + 1) == Step(StateAt(s, begin, k), s[k])
  {
    assert s[begin..k + 1][..k - begin] == s[begin..k];
  }

  /** Before it stops, the scan is at nesting level one or deeper. */
  lemma {:induction false} LevelsBeforeStop(s: string, begin: nat, end: nat, j: nat)
    requires end <= |s| && IsComponentEnd(s, begin, end, j)
    ensures forall k | begin <= k < j :: StateAt(s, begin, k).level >= 1
    ensures StateAt(s, begin, j).level >= 0
  {
    assert s[begin..begin] == [];
    var k := begin;
    while k < j
      invariant begin <= k <= j
      invariant forall m | begin <= m < k :: StateAt(s, begin, m).level >= 1
      invariant StateAt(s, begin, k).level >= 0
    {
      assert !Stops(s, begin, end, k);
      StateAtNext(s, begin, k);
      k := k + 1;
    }
  }

  /** Why the scan stopped: when it stops at `j` without running out of text,
      either `s[j]` is a comma at the top level outside a string (and is not
      part of the component), or the character just before `j` is a closing
      bracket read at level one outside a string, which brought the level to
      zero (and is the last character of the component). When `begin` is at
      or past `end` the component is empty. */
  lemma ComponentStop(s: string, begin: nat, end: nat, j: nat)
    requires end <= |s| && IsComponentEnd(s, begin, end, j)
    ensures begin >= end ==> j == begin
    ensures begin < end ==> j <= end
    ensures j < end ==>
      (s[j] == ',' && StateAt(s, begin, j) == ScanState(1, false, false)) ||
      (begin < j && IsCloser(s[j - 1]) &&
       StateAt(s, begin, j - 1).level == 1 && !StateAt(s, begin, j - 1).inString &&
       StateAt(s, begin, j).level == 0)
  {
    LevelsBeforeStop(s, begin, end, j);
    if begin < end {
      assert Stops(s, begin, end, end);
    } else {
      assert Stops(s, begin, end, begin);
    }
    if j < end {
      if StateAt(s, begin, j).level <= 0 {
        assert s[begin..begin] == [];
        assert begin < j;
        StateAtNext(s, begin, j - 1);
      } else {
        EscapeOnlyInString(s, begin, j);
      }
    }
  }

  /** The escape flag is only ever raised inside a string. */
  lemma {:induction false} EscapeOnlyInString(s: string, begin: nat, k: nat)
    requires begin <= k <= |s|
    ensures StateAt(s, begin, k).escape ==> StateAt(s, begin, k).inString
  {
    if k == begin {
      assert s[begin..begin] == [];
    } else {
      EscapeOnlyInString(s, begin, k - 1);
      StateAtNext(s, begin, k - 1);
    }
  }

  /** Inside a string, text without quotes and backslashes changes nothing:
      commas and brackets there do not count. */
  lemma {:induction false} QuotedTextIgnored(st: ScanState, t: string)
    requires st.inString && !st.escape
    requires forall k | 0 <= k < |t| :: t[k] != '"' && t[k] != '\\'
    ensures Run(st, t) == st
  {
    if t != [] {
      QuotedTextIgnored(st, t[..|t| - 1]);
    }
  }

  /** A backslash-escaped quote does not close the string. */
  lemma EscapedQuoteStaysInString(st: ScanState)
    requires st.inString && !st.escape
    ensures Run(st, "\\\"") == st
  {
    var t := "\\\"";
    assert t[..1] == "\\" && t[1] == '"';
    assert Run(st, "\\") == ScanState(st.level, true, true) by {
      assert "\\"[..0] == [];
    }
  }

  /** A quoted string read at the top level leaves the scanner where it was:
      whatever commas and brackets it holds. */
  lemma QuotedStringIgnored(st: ScanState, t: string)
    requires !st.inString && !st.escape
    requires forall k | 0 <= k < |t| :: t[k] != '"' && t[k] != '\\'
    ensures Run(st, "\"" + t + "\"") == st
  {
    var open := ScanState(st.level, true, false);
    assert Run(st, "\"") == open by {
      assert "\""[..0] == [];
    }
    RunAppend(st, "\"", t);
    QuotedTextIgnored(open, t);
    RunAppend(st, "\"" + t, "\"");
    assert "\""[..0] == [];
  }

  /** A character that neither the nesting nor the string tracking looks at. */
  predicate IsPlain(c: char) {
    c != '"' && c != ',' && !IsOpener(c) && !IsCloser(c)
  }

  predicate AllPlain(p: string) {
    p == [] || (IsPlain(p[0]) && AllPlain(p[1..]))
  }

  lemma {:induction false} AllPlainAt(p: string)
    requires AllPlain(p)
    ensures forall i | 0 <= i < |p| :: IsPlain(p[i])
  {
    if p != [] {
      AllPlainAt(p[1..]);
      assert forall i | 1 <= i < |p| :: p[i] == p[1..][i - 1];
    }
  }

  /** Outside a string, plain text keeps the state, and the scan does not stop in it. */
  lemma PlainRun(s: string, begin: nat, end: nat, k0: nat, k1: nat)
    requires begin <= k0 <= k1 <= end <= |s|
    requires StateAt(s, begin, k0).level >= 1 && !StateAt(s, begin, k0).inString
    requires AllPlain(s[k0..k1])
    ensures forall k | k0 <= k <= k1 :: StateAt(s, begin, k) == StateAt(s, begin, k0)
    ensures forall k | k0 <= k < k1 :: !Stops(s, begin, end, k)
  {
    AllPlainAt(s[k0..k1]);
    var k := k0;
    while k < k1
      invariant k0 <= k <= k1
      invariant forall m | k0 <= m <= k :: StateAt(s, begin, m) == StateAt(s, begin, k0)
      invariant forall m | k0 <= m < k :: !Stops(s, begin, end, m)
    {
      assert s[k] == s[k0..k1][k - k0];
      StateAtNext(s, begin, k);
      k := k + 1;
    }
  }

  /** Plain text followed by a bracket, read outside a string at level one
      or deeper: the scan does not stop in it, and the bracket moves the
      level by one. */
  lemma PlainThenBracket(s: string, begin: nat, end: nat, k0: nat, k1: nat)
    requires begin <= k0 <= k1 < end <= |s|
    requires StateAt(s, begin, k0).level >= 1 && !StateAt(s, begin, k0).inString
    requires AllPlain(s[k0..k1]) && (IsOpener(s[k1]) || IsCloser(s[k1]))
    ensures forall k | k0 <= k <= k1 :: !Stops(s, begin, end, k)
    ensures StateAt(s, begin, k1 + 1) ==
      var st := StateAt(s, begin, k0);
      ScanState(if IsOpener(s[k1]) then st.level + 1 else st.level - 1, false, st.escape)
  {
    PlainRun(s, begin, end, k0, k1);
    StateAtNext(s, begin, k1);
  }

  /** A component that starts inside a bracket and holds one nested bracket
      pair, with plain text around it, runs up to and including the bracket
      that closes the outer pair, whatever follows it. */
  lemma NestedGroupComponent(s: string, begin: nat, k1: nat, k2: nat, k3: nat)
    requires begin <= k1 < k2 < k3 < |s|
    requires AllPlain(s[begin..k1]) && s[k1] == '{'
    requires AllPlain(s[k1 + 1..k2]) && s[k2] == '}'
    requires AllPlain(s[k2 + 1..k3]) && s[k3] == '}'
    ensures IsComponentEnd(s, begin, |s|, k3 + 1)
  {
    assert s[begin..begin] == [];
    PlainThenBracket(s, begin, |s|, begin, k1);
    PlainThenBracket(s, begin, |s|, k1 + 1, k2);
    PlainThenBracket(s, begin, |s|, k2 + 1, k3);
    assert StateAt(s, begin, k3 + 1).level == 0;
  }

  /** The line of the example below, cut at the brackets. */
  lemma ExampleLine()
    ensures var s := "Value = {" + "abc {c} = def}" + " NextValue = 42";
      s[9..13] == "abc " && s[13] == '{' && s[14..15] == "c" && s[15] == '}' &&
      s[16..22] == " = def" && s[22] == '}'
  {
  }

  lemma ExampleTextIsPlain()
    ensures AllPlain("abc ") && AllPlain("c") && AllPlain(" = def")
  {
  }

  /** The example of the source's unit test (test/src/StringUtilsTests.cpp:63-66). */
  lemma ComponentExample()
    ensures var s := "Value = {" + "abc {c} = def}" + " NextValue = 42";
      IsComponentEnd(s, 9, |s|, 23) && s[9..23] == "abc {c} = def}"
  {
    ExampleLine();
    ExampleTextIsPlain();
    NestedGroupComponent("Value = {" + "abc {c} = def}" + " NextValue = 42", 9, 13, 15, 22);
  }
}
