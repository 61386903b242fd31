/** Whitespace trimming: the `Trim` of src/StringUtils.cpp and the facts about
    it that `Split` relies on. Characters are read as their unsigned code
    points, so a character is blank exactly when its code is at most 32. */
module Trimming {

  /** The test `s[i] <= 32` of the source: space and every control character. */
  predicate IsBlank(c: char) {
    c as int <= 32
  }

  /** `s` without its leading blanks. */
  function TrimLeft(s: string): string {
    if s != [] && IsBlank(s[0]) then TrimLeft(s[1..]) else s
  }

  /** `s` without its trailing blanks. */
  function TrimRight(s: string): string {
    if s != [] && IsBlank(s[|s| - 1]) then TrimRight(s[..|s| - 1]) else s
  }

  /** Specification of `Trim`: both ends stripped of blanks. */
  function Trimmed(s: string): string {
    TrimRight(TrimLeft(s))
  }

  /** A string with no blank at either end. */
  predicate IsTrimmed(s: string) {
    s == [] || (!IsBlank(s[0]) && !IsBlank(s[|s| - 1]))
  }

  /** `r` is `s` with a run of blanks removed at each end and no blank left at either end. */
  ghost predicate IsTrimOf(r: string, s: string) {
    IsTrimmed(r) &&
    exists i, j | 0 <= i <= j <= |s| ::
      r == s[i..j] &&
      (forall k | 0 <= k < i :: IsBlank(s[k])) &&
      (forall k | j <= k < |s| :: IsBlank(s[k]))
  }

  /** Trim (src/StringUtils.cpp:43-51): `i` skips the leading blanks, `j` the
      trailing ones. When every character is blank the two indices cross and
      the source's unsigned `j - i` wraps around, so `substr` takes the
      (empty) rest of the string from `i`; the last assignment writes that
      case out. */
  method Trim(s: string) returns (r: string)
    ensures r == Trimmed(s)
  {
    var i := 0;
    assert s[0..] == s;
    while i < |s| && IsBlank(s[i])
      invariant 0 <= i <= |s|
      invariant TrimLeft(s) == TrimLeft(s[i..])
    {
      SkipLeadingBlank(s, i);
      i := i + 1;
    }
    assert TrimLeft(s) == s[i..];
    var j := |s|;
    assert s[i..j] == s[i..];
    while j > 0 && IsBlank(s[j - 1])
      invariant 0 <= j <= |s|
      invariant i < |s| ==> i < j
      invariant i < j ==> TrimRight(s[i..]) == TrimRight(s[i..j])
    {
      if i < j - 1 {
        SkipTrailingBlank(s, i, j);
      }
      j := j - 1;
    }
    if i < j {
      KeepLastNonBlank(s, i, j);
    }
    r := if i <= j then s[i..j] else s[i..];
  }

  /** One step of Trim's first loop. */
  lemma SkipLeadingBlank(s: string, i: nat)
    requires i < |s| && IsBlank(s[i])
    ensures TrimLeft(s[i..]) == TrimLeft(s[i + 1..])
  {
    assert s[i..][0] == s[i];
    assert s[i..][1..] == s[i + 1..];
  }

  /** Where Trim's second loop stops. */
  lemma KeepLastNonBlank(s: string, i: nat, j: nat)
    requires i < j <= |s| && !IsBlank(s[j - 1])
    ensures TrimRight(s[i..j]) == s[i..j]
  {
    assert s[i..j][|s[i..j]| - 1] == s[j - 1];
  }

  /** One step of Trim's second loop. */
  lemma SkipTrailingBlank(s: string, i: nat, j: nat)
    requires i < j - 1 && j <= |s| && IsBlank(s[j - 1])
    ensures TrimRight(s[i..j]) == TrimRight(s[i..j - 1])
  {
    assert s[i..j][|s[i..j]| - 1] == s[j - 1];
    assert s[i..j][..j - 1 - i] == s[i..j - 1];
  }

  lemma {:induction false} TrimLeftFacts(s: string)
    ensures |TrimLeft(s)| <= |s|
    ensures TrimLeft(s) == s[|s| - |TrimLeft(s)|..]
    ensures forall k | 0 <= k < |s| - |TrimLeft(s)| :: IsBlank(s[k])
    ensures TrimLeft(s) == [] || !IsBlank(TrimLeft(s)[0])
  {
    if s != [] && IsBlank(s[0]) {
      var t := s[1..];
      TrimLeftFacts(t);
      assert TrimLeft(s) == TrimLeft(t);
      var n := |s| - |TrimLeft(s)|;
      assert s[n..] == t[n - 1..];
      forall k | 0 <= k < n ensures IsBlank(s[k]) {
        if k > 0 {
          assert s[k] == t[k - 1];
        }
      }
    } else {
      assert s[0..] == s;
    }
  }

  lemma {:induction false} TrimRightFacts(s: string)
    ensures |TrimRight(s)| <= |s|
    ensures TrimRight(s) == s[..|TrimRight(s)|]
    ensures forall k | |TrimRight(s)| <= k < |s| :: IsBlank(s[k])
    ensures TrimRight(s) == [] || !IsBlank(TrimRight(s)[|TrimRight(s)| - 1])
    ensures s != [] && !IsBlank(s[0]) ==> TrimRight(s) != [] && TrimRight(s)[0] == s[0]
  {
    if s != [] && IsBlank(s[|s| - 1]) {
      var t := s[..|s| - 1];
      TrimRightFacts(t);
      assert TrimRight(s) == TrimRight(t);
      assert s[..|TrimRight(s)|] == t[..|TrimRight(t)|];
    } else {
      assert s[..|s|] == s;
    }
  }

  /** Trim keeps a window of its input: the one that starts after the leading blanks. */
  lemma TrimmedWindow(s: string)
    ensures |TrimLeft(s)| <= |s| && |s| - |TrimLeft(s)| + |Trimmed(s)| <= |s|
    ensures Trimmed(s) == s[|s| - |TrimLeft(s)|..|s| - |TrimLeft(s)| + |Trimmed(s)|]
    ensures IsTrimmed(Trimmed(s))
  {
    TrimLeftFacts(s);
    TrimRightFacts(TrimLeft(s));
  }

  /** The window of `s` that Trim keeps, with blanks on either side of it. */
  lemma TrimmedBlanks(s: string)
    ensures |TrimLeft(s)| <= |s| && |s| - |TrimLeft(s)| + |Trimmed(s)| <= |s|
    ensures Trimmed(s) == s[|s| - |TrimLeft(s)|..|s| - |TrimLeft(s)| + |Trimmed(s)|]
    ensures forall k | 0 <= k < |s| - |TrimLeft(s)| :: IsBlank(s[k])
    ensures forall k | |s| - |TrimLeft(s)| + |Trimmed(s)| <= k < |s| :: IsBlank(s[k])
  {
    var l := TrimLeft(s);
    TrimLeftFacts(s);
    TrimRightFacts(l);
    var i := |s| - |l|;
    var j := i + |TrimRight(l)|;
    forall k | j <= k < |s| ensures IsBlank(s[k]) {
      assert s[k] == l[k - i];
    }
  }

  /** Trim returns a contiguous piece of its input with no blank at either end,
      and removes nothing but blanks. */
  lemma TrimmedIsTrim(s: string)
    ensures IsTrimOf(Trimmed(s), s)
  {
    TrimmedWindow(s);
    TrimmedBlanks(s);
    var i := |s| - |TrimLeft(s)|;
    var j := i + |Trimmed(s)|;
    assert Trimmed(s) == s[i..j];
  }

  /** Two windows of `s` that both have the shape of a trim of `s` coincide. */
  lemma TrimWindowsAgree(s: string, i: nat, j: nat, i': nat, j': nat)
    requires i <= j <= |s| && i' <= j' <= |s|
    requires forall k | 0 <= k < i :: IsBlank(s[k])
    requires forall k | j <= k < |s| :: IsBlank(s[k])
    requires forall k | 0 <= k < i' :: IsBlank(s[k])
    requires forall k | j' <= k < |s| :: IsBlank(s[k])
    requires IsTrimmed(s[i..j]) && IsTrimmed(s[i'..j'])
    ensures s[i..j] == s[i'..j']
  {
    if i < j {
      assert !IsBlank(s[i]) && !IsBlank(s[j - 1]);
      assert i' <= i < j';
    }
    if i' < j' {
      assert !IsBlank(s[i']) && !IsBlank(s[j' - 1]);
      assert i <= i' < j;
    }
  }

  /** There is only one way to trim a string: any `r` with the shape of a trim
      of `s` is Trim's result. */
  lemma TrimIsUnique(r: string, s: string)
    requires IsTrimOf(r, s)
    ensures r == Trimmed(s)
  {
    var i, j :| 0 <= i <= j <= |s| && r == s[i..j] &&
      (forall k | 0 <= k < i :: IsBlank(s[k])) &&
      (forall k | j <= k < |s| :: IsBlank(s[k]));
    TrimmedWindowIsTrim(s, i, j);
  }

  /** A window of `s` with the shape of a trim of `s` is Trim's result. */
  lemma TrimmedWindowIsTrim(s: string, i: nat, j: nat)
    requires i <= j <= |s|
    requires forall k | 0 <= k < i :: IsBlank(s[k])
    requires forall k | j <= k < |s| :: IsBlank(s[k])
    requires IsTrimmed(s[i..j])
    ensures s[i..j] == Trimmed(s)
  {
    var t := Trimmed(s);
    TrimmedWindow(s);
    TrimmedBlanks(s);
    var i' := |s| - |TrimLeft(s)|;
    var j' := i' + |t|;
    assert t == s[i'..j'] && IsTrimmed(s[i'..j']);
    TrimWindowsAgree(s, i, j, i', j');
  }

  /** Trimming twice is trimming once. */
  lemma TrimIdempotent(s: string)
    ensures Trimmed(Trimmed(s)) == Trimmed(s)
  {
    TrimmedIsTrim(s);
    TrimOfTrimmed(Trimmed(s));
  }

  /** A string with no blank at either end is left alone. */
  lemma TrimOfTrimmed(s: string)
    requires IsTrimmed(s)
    ensures Trimmed(s) == s
  {
    assert s[0..|s|] == s;
    assert IsTrimOf(s, s);
    TrimIsUnique(s, s);
  }

  /** Trim gives the empty string exactly when every character is blank. */
  lemma TrimEmptyIffAllBlank(s: string)
    ensures Trimmed(s) == [] <==> forall k | 0 <= k < |s| :: IsBlank(s[k])
  {
    TrimLeftFacts(s);
    TrimRightFacts(TrimLeft(s));
    if TrimLeft(s) != [] {
      assert TrimLeft(s)[0] == s[|s| - |TrimLeft(s)|];
    }
  }

  /** Blanks around a trimmed string are exactly what Trim removes. */
  lemma TrimOfPadded(a: string, r: string, b: string)
    requires forall k | 0 <= k < |a| :: IsBlank(a[k])
    requires forall k | 0 <= k < |b| :: IsBlank(b[k])
    requires IsTrimmed(r)
    ensures Trimmed(a + r + b) == r
  {
    var s := a + r + b;
    assert s[|a|..|a| + |r|] == r;
    assert forall k | |a| + |r| <= k < |s| :: s[k] == b[k - |a| - |r|];
    assert IsTrimOf(r, s);
    TrimIsUnique(r, s);
  }

  /** The first loop of Trim reads into `z` only when `s` is all blank;
      otherwise it stops inside `s` and keeps `z` whole. */
  lemma {:induction false} TrimLeftAppend(s: string, z: string)
    ensures TrimLeft(s + z) == if TrimLeft(s) == [] then TrimLeft(z) else TrimLeft(s) + z
  {
    if s == [] {
      assert s + z == z;
    } else if IsBlank(s[0]) {
      TrimLeftAppend(s[1..], z);
      assert (s + z)[1..] == s[1..] + z;
    }
  }

  /** One more character at the end: a blank one is trimmed away, a
      non-blank one stays after everything that follows the leading blanks. */
  lemma TrimmedSnoc(s: string, c: char)
    ensures IsBlank(c) ==> Trimmed(s + [c]) == Trimmed(s)
    ensures !IsBlank(c) ==> Trimmed(s + [c]) == TrimLeft(s) + [c]
  {
    TrimLeftAppend(s, [c]);
    var l := TrimLeft(s);
    if l == [] {
      assert [c][1..] == [];
    } else {
      assert (l + [c])[..|l|] == l;
    }
  }

  /** The example of the source's unit test (test/src/StringUtilsTests.cpp:37-40). */
  lemma TrimExample()
    ensures Trimmed("  \t  \t\t  Hello, World! \r  \n \r\n \t \t\t  ") == "Hello, World!"
  {
    var a, r, b := "  \t  \t\t  ", "Hello, World!", " \r  \n \r\n \t \t\t  ";
    TrimOfPadded(a, r, b);
    assert a + r + b == "  \t  \t\t  Hello, World! \r  \n \r\n \t \t\t  ";
  }
}
