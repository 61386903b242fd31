/** Indentation of CRLF-separated lines: `Indent` of src/StringUtils.cpp. */
module Indentation {
  import opened Splitting

  /** The line delimiter `Indent` looks for. */
  const CRLF := "\r\n"

  /** `n` spaces. */
  function Spaces(n: nat): string {
    seq(n, _ => ' ')
  }

  /** Specification of `Indent`: `n` spaces are inserted after every CRLF
      that has more text after it. */
  function Indented(s: string, n: nat): string {
    if s == [] then []
    else if |s| > 2 && s[0] == '\r' && s[1] == '\n' then CRLF + Spaces(n) + Indented(s[2..], n)
    else [s[0]] + Indented(s[1..], n)
  }

  /** The spaces the loop of `Indent` still owes: some when a line has been
      written and another one follows. */
  function Gap(linesOut: string, linesIn: string, n: nat): string {
    if linesOut != [] && linesIn != [] then Spaces(n) else []
  }

  /** Indent (src/StringUtils.cpp:53-73). The source changes its by-value
      parameter `linesIn`; here that is the local `rest`. */
  method Indent(linesIn: string, spaces: nat) returns (linesOut: string)
    ensures linesOut == Indented(linesIn, spaces)
  {
    var rest := linesIn;
    linesOut := "";
    while rest != []
      invariant Indented(linesIn, spaces) == linesOut + Gap(linesOut, rest, spaces) + Indented(rest, spaces)
      decreases |rest|
    {
      var line, after;
      var delimiter := Find(rest, CRLF);
      if delimiter == |rest| {
        line := rest;
        after := "";
        IndentUnbroken(rest, spaces);
        assert Indented(rest, spaces) == line + Gap(line, after, spaces) + Indented(after, spaces);
      } else {
        line := rest[..delimiter + 2];
        after := rest[delimiter + 2..];
        IndentFirstLine(rest, delimiter, spaces);
      }
      IndentTurn(Indented(linesIn, spaces), linesOut, rest, Indented(rest, spaces), line, after, Indented(after, spaces), spaces);
      rest := after;
      if linesOut != [] {
        linesOut := linesOut + Spaces(spaces);
      }
      linesOut := linesOut + line;
    }
  }

  /** One turn of the loop of `Indent`: the line taken off the input is
      written after the spaces still owed. */
  lemma IndentTurn(total: string, before: string, rest: string, tail: string,
                line: string, after: string, afterOut: string, n: nat)
    requires rest != [] && line != []
    requires total == before + Gap(before, rest, n) + tail
    requires tail == line + Gap(line, after, n) + afterOut
    ensures total == (before + Gap(before, rest, n) + line) + Gap(before + Gap(before, rest, n) + line, after, n) + afterOut
  {
  }

  /** The first line of a text, up to and including its first CRLF at `k`,
      comes out unchanged, followed by the spaces when more text follows. */
  lemma IndentFirstLine(rest: string, k: nat, n: nat)
    requires k + 2 <= |rest| && OccursAt(rest, CRLF, k)
    requires forall j: nat | j < k :: !OccursAt(rest, CRLF, j)
    ensures Indented(rest, n) == rest[..k + 2] + Gap(rest[..k + 2], rest[k + 2..], n) + Indented(rest[k + 2..], n)
  {
    assert rest == rest[..k] + CRLF + rest[k + 2..];
    IndentLine(rest[..k], rest[k + 2..], n);
    assert rest[..k + 2] == rest[..k] + CRLF;
  }

  /** Text with no CRLF is left alone. */
  lemma {:induction false} IndentUnbroken(s: string, n: nat)
    requires forall j: nat | j < |s| :: !OccursAt(s, CRLF, j)
    ensures Indented(s, n) == s
  {
    if s != [] {
      assert !OccursAt(s, CRLF, 0);
      forall j: nat | j < |s[1..]| ensures !OccursAt(s[1..], CRLF, j) {
        assert !OccursAt(s, CRLF, j + 1);
        if j + 2 <= |s[1..]| {
          assert s[1..][j..j + 2] == s[j + 1..j + 3];
        }
      }
      IndentUnbroken(s[1..], n);
    }
  }

  /** A CRLF at the front stays, followed by the spaces when more text
      follows it. */
  lemma IndentCRLF(rest: string, n: nat)
    ensures Indented(CRLF + rest, n) == CRLF + (if rest == [] then [] else Spaces(n)) + Indented(rest, n)
  {
    var s := CRLF + rest;
    if rest == [] {
      assert s[1..] == "\n";
    } else {
      assert s[2..] == rest;
    }
  }

  /** A CRLF at the front is seen by the character test of `Indented`. */
  lemma BreakAtFront(s: string)
    requires |s| >= 2
    ensures OccursAt(s, CRLF, 0) <==> s[0] == '\r' && s[1] == '\n'
  {
    if s[0] == '\r' && s[1] == '\n' {
      assert s[0..2] == CRLF;
    }
  }

  /** A first character that does not start a CRLF is copied. */
  lemma IndentFirstChar(s: string, n: nat)
    requires s != [] && !(|s| > 2 && s[0] == '\r' && s[1] == '\n')
    ensures Indented(s, n) == [s[0]] + Indented(s[1..], n)
  {
  }

  /** Dropping the first character of a line keeps its first CRLF the
      first. */
  lemma NoBreakShift(x: string, rest: string)
    requires x != []
    requires forall j: nat | j < |x| :: !OccursAt(x + CRLF + rest, CRLF, j)
    ensures forall j: nat | j < |x[1..]| :: !OccursAt(x[1..] + CRLF + rest, CRLF, j)
  {
    var s, t := x + CRLF + rest, x[1..] + CRLF + rest;
    assert s == [x[0]] + t;
    forall j: nat | j < |x[1..]| ensures !OccursAt(t, CRLF, j) {
      assert !OccursAt(s, CRLF, j + 1);
      assert t[j..j + 2] == s[j + 1..j + 3];
    }
  }

  /** A line up to its first CRLF comes out unchanged, and the spaces follow
      it only when there is more text after it. */
  lemma {:induction false} IndentLine(x: string, rest: string, n: nat)
    requires forall j: nat | j < |x| :: !OccursAt(x + CRLF + rest, CRLF, j)
    ensures Indented(x + CRLF + rest, n) == x + CRLF + (if rest == [] then [] else Spaces(n)) + Indented(rest, n)
  {
    if x == [] {
      assert x + CRLF + rest == CRLF + rest;
      IndentCRLF(rest, n);
    } else {
      NoBreakShift(x, rest);
      IndentLine(x[1..], rest, n);
      IndentLineStep(x, rest, n);
    }
  }

  /** The inductive step of `IndentLine`: the first character of the line is
      copied. */
  lemma IndentLineStep(x: string, rest: string, n: nat)
    requires x != [] && !OccursAt(x + CRLF + rest, CRLF, 0)
    requires Indented(x[1..] + CRLF + rest, n) == x[1..] + CRLF + (if rest == [] then [] else Spaces(n)) + Indented(rest, n)
    ensures Indented(x + CRLF + rest, n) == x + CRLF + (if rest == [] then [] else Spaces(n)) + Indented(rest, n)
  {
    var s, t := x + CRLF + rest, x[1..] + CRLF + rest;
    assert s[1..] == t;
    BreakAtFront(s);
    IndentFirstChar(s, n);
    Reassociate(x, CRLF, if rest == [] then [] else Spaces(n), Indented(rest, n));
  }

  /** Putting the first character of `x` back in front. */
  lemma Reassociate(x: string, a: string, b: string, c: string)
    requires x != []
    ensures [x[0]] + (x[1..] + a + b + c) == x + a + b + c
  {
    assert x == [x[0]] + x[1..];
  }

  /** With no spaces to insert, Indent changes nothing. */
  lemma {:induction false} IndentZero(s: string)
    ensures Indented(s, 0) == s
  {
    if s != [] {
      IndentZero(s[1..]);
      if |s| > 2 && s[0] == '\r' && s[1] == '\n' {
        IndentZero(s[2..]);
        assert Spaces(0) == [];
        assert s == CRLF + s[2..];
      }
    }
  }

  /** The lines of a text after Indent: every line but the first is prefixed
      with the spaces, except a last line that is empty, which stays empty
      because nothing follows the final CRLF. */
  function IndentedLines(v: seq<string>, n: nat): seq<string> {
    seq(|v|, i requires 0 <= i < |v| =>
      if i == 0 || (i == |v| - 1 && v[i] == []) then v[i] else Spaces(n) + v[i])
  }

  /** Putting text in front of the first piece puts it in front of the whole. */
  lemma {:induction false} JoinedPrefixFirst(g: string, v: seq<string>, d: string)
    requires |v| >= 1
    ensures Joined([g + v[0]] + v[1..], d) == g + Joined(v, d)
  {
    var u := [g + v[0]] + v[1..];
    if |v| == 1 {
      assert u == [g + v[0]];
    } else {
      var init := v[..|v| - 1];
      JoinedPrefixFirst(g, init, d);
      assert u[..|u| - 1] == [g + init[0]] + init[1..];
      assert u[|u| - 1] == v[|v| - 1];
      calc {
        Joined(u, d);
        Joined(u[..|u| - 1], d) + d + u[|u| - 1];
        g + Joined(init, d) + d + v[|v| - 1];
        g + Joined(v, d);
      }
    }
  }

  /** A line with no CRLF, joined to what follows by CRLF, has its first CRLF
      right after it. */
  lemma FirstBreakAfter(x: string, rest: string)
    requires Lacks(x, CRLF)
    ensures forall j: nat | j < |x| :: !OccursAt(x + CRLF + rest, CRLF, j)
  {
    var s := x + CRLF + rest;
    forall j: nat | j < |x| ensures !OccursAt(s, CRLF, j) {
      if j + 2 <= |x| {
        assert !OccursAt(x, CRLF, j);
        assert s[j..j + 2] == x[j..j + 2];
      } else {
        assert s[j + 1] == '\r';
      }
    }
  }

  /** The spaces in front of the second line, if any. */
  function FirstPad(r: seq<string>, n: nat): string
    requires |r| >= 1
  {
    if |r| == 1 && r[0] == [] then [] else Spaces(n)
  }

  /** The indented lines of `[x] + r`, read off those of `r`. */
  lemma IndentedLinesCons(x: string, r: seq<string>, n: nat)
    requires |r| >= 1
    ensures IndentedLines([x] + r, n) == [x] + ([FirstPad(r, n) + r[0]] + IndentedLines(r, n)[1..])
  {
    var v := [x] + r;
    var w := IndentedLines(v, n);
    var wr := IndentedLines(r, n);
    var u := [x] + ([FirstPad(r, n) + r[0]] + wr[1..]);
    assert |w| == |u|;
    forall i | 0 <= i < |w| ensures w[i] == u[i] {
      if i >= 2 {
        assert v[i] == r[i - 1];
        assert u[i] == wr[i - 1];
      }
    }
  }

  /** Lines joined by CRLF are empty only when they are one empty line. */
  lemma JoinedEmptyIff(r: seq<string>)
    requires |r| >= 1
    ensures (Joined(r, CRLF) == []) == (|r| == 1 && r[0] == [])
  {
    if |r| > 1 {
      assert Joined(r, CRLF) == Joined(r[..|r| - 1], CRLF) + CRLF + r[|r| - 1];
    }
  }

  /** Indent read line by line: for lines that hold no CRLF, indenting the
      lines joined by CRLF gives the indented lines joined by CRLF. */
  lemma {:induction false} IndentLines(v: seq<string>, n: nat)
    requires |v| >= 1
    requires forall i | 0 <= i < |v| :: Lacks(v[i], CRLF)
    ensures Indented(Joined(v, CRLF), n) == Joined(IndentedLines(v, n), CRLF)
  {
    var x := v[0];
    if |v| == 1 {
      FirstBreakAfter(x, []);
      forall j: nat | j < |x| ensures !OccursAt(x, CRLF, j) {
        assert !OccursAt(x, CRLF, j);
      }
      IndentUnbroken(x, n);
    } else {
      var r := v[1..];
      assert v == [x] + r;
      JoinedCons(x, r, CRLF);
      FirstBreakAfter(x, Joined(r, CRLF));
      IndentLine(x, Joined(r, CRLF), n);
      IndentLines(r, n);
      var wr := IndentedLines(r, n);
      var g := FirstPad(r, n);
      IndentedLinesCons(x, r, n);
      JoinedCons(x, [g + wr[0]] + wr[1..], CRLF);
      JoinedPrefixFirst(g, wr, CRLF);
      JoinedEmptyIff(r);
    }
  }

  /** A line without a carriage return holds no CRLF. */
  lemma NoCarriageReturn(x: string, rest: string)
    requires forall i | 0 <= i < |x| :: x[i] != '\r'
    ensures forall j: nat | j < |x| :: !OccursAt(x + CRLF + rest, CRLF, j)
  {
    var s := x + CRLF + rest;
    forall j: nat | j < |x| ensures !OccursAt(s, CRLF, j) {
      assert s[j] == x[j];
    }
  }

  /** A last line, without carriage returns, ending in CRLF is left alone. */
  lemma IndentLastLine(z: string, n: nat)
    requires forall i | 0 <= i < |z| :: z[i] != '\r'
    ensures Indented(z + CRLF, n) == z + CRLF
  {
    NoCarriageReturn(z, []);
    IndentLine(z, [], n);
    assert z + CRLF + [] == z + CRLF;
  }

  /** A line without carriage returns that more text follows gets the
      spaces after its CRLF. */
  lemma IndentNextLine(y: string, t: string, n: nat)
    requires forall i | 0 <= i < |y| :: y[i] != '\r'
    requires t != []
    ensures Indented(y + CRLF + t, n) == y + CRLF + Spaces(n) + Indented(t, n)
  {
    NoCarriageReturn(y, t);
    IndentLine(y, t, n);
  }

  /** Three lines each ending in CRLF: the second and third are indented,
      and nothing is added after the last CRLF. */
  lemma IndentThreeLines(x: string, y: string, z: string, n: nat)
    requires forall i | 0 <= i < |x| :: x[i] != '\r'
    requires forall i | 0 <= i < |y| :: y[i] != '\r'
    requires forall i | 0 <= i < |z| :: z[i] != '\r'
    ensures Indented(x + CRLF + (y + CRLF + (z + CRLF)), n) ==
      x + CRLF + Spaces(n) + (y + CRLF + Spaces(n) + (z + CRLF))
  {
    IndentLastLine(z, n);
    IndentNextLine(y, z + CRLF, n);
    IndentNextLine(x, y + CRLF + (z + CRLF), n);
  }

  /** A text that starts with CRLF and holds two more lines. */
  lemma IndentLeadingBreak(y: string, z: string, n: nat)
    requires forall i | 0 <= i < |y| :: y[i] != '\r'
    requires forall i | 0 <= i < |z| :: z[i] != '\r'
    requires z != []
    ensures Indented(CRLF + (y + CRLF + z), n) == CRLF + Spaces(n) + (y + CRLF + Spaces(n) + z)
  {
    forall j: nat | j < |z| ensures !OccursAt(z, CRLF, j) {
      assert z[j] != '\r';
    }
    IndentUnbroken(z, n);
    IndentNextLine(y, z, n);
    IndentCRLF(y + CRLF + z, n);
  }

  /** Three lines of the source's unit test (test/src/StringUtilsTests.cpp:42-51). */
  lemma IndentExample()
    ensures Indented("Hello, World!" + "\r\n" + ("This is line 2" + "\r\n" + ("This is line 3" + "\r\n")), 2) ==
      "Hello, World!" + "\r\n" + "  " + ("This is line 2" + "\r\n" + "  " + ("This is line 3" + "\r\n"))
  {
    TwoSpaces();
    IndentThreeLines("Hello, World!", "This is line 2", "This is line 3", 2);
  }

  /** The nested structure of the source's unit test (test/src/StringUtilsTests.cpp:52-61). */
  lemma IndentNestedExample()
    ensures "Struct {" + Indented("\r\n" + ("field 1" + "\r\n" + "field 2"), 2) + "\r\n}" ==
      "Struct {" + ("\r\n" + "  " + ("field 1" + "\r\n" + "  " + "field 2")) + "\r\n}"
  {
    TwoSpaces();
    IndentLeadingBreak("field 1", "field 2", 2);
  }

  lemma TwoSpaces()
    ensures Spaces(2) == "  "
  {
  }
}
