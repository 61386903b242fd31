/** Splitting a string into trimmed pieces at a delimiter, and joining pieces
    with a separator: the `Split` and `Join` overloads of src/StringUtils.cpp.
    The single-character overloads run the same loops as the string
    overloads with a one-character delimiter, so they are modelled by
    delegating to them. */
module Splitting {
  import opened Trimming

  /** `d` occurs in `s` starting at index `i`. */
  predicate OccursAt(s: string, d: string, i: nat) {
    i + |d| <= |s| && s[i..i + |d|] == d
  }

  /** `d` occurs nowhere in `s`. */
  ghost predicate Lacks(s: string, d: string) {
    forall i: nat :: !OccursAt(s, d, i)
  }

  /** `std::string::find` from index `i`: the first occurrence of `d` at or
      after `i`, or `|s|` (standing for `npos`) when there is none. */
  function FindFrom(s: string, d: string, i: nat): (k: nat)
    requires |d| > 0 && i <= |s|
    ensures i <= k <= |s|
    ensures k < |s| ==> OccursAt(s, d, k)
    ensures forall j: nat | i <= j < k :: !OccursAt(s, d, j)
    decreases |s| - i
  {
    if i == |s| then |s|
    else if OccursAt(s, d, i) then i
    else FindFrom(s, d, i + 1)
  }

  /** `s.find(d)`. */
  function Find(s: string, d: string): (k: nat)
    requires |d| > 0
    ensures k <= |s|
  {
    FindFrom(s, d, 0)
  }

  /** What Split's loop produces from a remainder. */
  function Pieces(remainder: string, d: string): seq<string>
    requires |d| > 0 || remainder == []
    decreases |remainder|
  {
    if remainder == [] then []
    else
      var k := Find(remainder, d);
      if k == |remainder| then [remainder]
      else
        var rest := remainder[k + |d|..];
        TrimmedWindow(rest);
        [Trimmed(remainder[..k])] + Pieces(Trimmed(rest), d)
  }

  /** Specification of `Split`. */
  function Splitted(s: string, d: string): seq<string>
    requires |d| > 0 || Trimmed(s) == []
  {
    Pieces(Trimmed(s), d)
  }

  /** Split with a string delimiter (src/StringUtils.cpp:162-181). On blank
      input the loop never runs, whatever the delimiter. An empty delimiter
      with non-blank input is found at index 0 on every round: the source
      pushes an empty piece and keeps the remainder, so it never returns.
      That case is excluded here. */
  method Split(s: string, d: string) returns (values: seq<string>)
    requires |d| > 0 || Trimmed(s) == []
    ensures values == Splitted(s, d)
  {
    values := [];
    var remainder := Trim(s);
    while remainder != []
      invariant values + (if remainder == [] then [] else Pieces(remainder, d)) == Splitted(s, d)
      invariant |d| > 0 || remainder == []
      decreases |remainder|
    {
      var delimiter := Find(remainder, d);
      if delimiter == |remainder| {
        values := values + [remainder];
        remainder := [];
      } else {
        var piece := Trim(remainder[..delimiter]);
        values := values + [piece];
        TrimmedWindow(remainder[delimiter + |d|..]);
        remainder := Trim(remainder[delimiter + |d|..]);
      }
    }
  }

  /** Blank input splits into no pieces, whatever the delimiter, the empty
      one included: the loop never runs. */
  lemma SplitOfBlank(s: string, d: string)
    requires forall k | 0 <= k < |s| :: IsBlank(s[k])
    ensures Trimmed(s) == []
    ensures Splitted(s, d) == []
  {
    TrimEmptyIffAllBlank(s);
  }

  /** Split with a character delimiter (src/StringUtils.cpp:143-160):
      `find_first_of` with one character is the search for that character. */
  method SplitAt(s: string, d: char) returns (values: seq<string>)
    ensures values == Splitted(s, [d])
  {
    values := Split(s, [d]);
  }

  /** Specification of `Join`: the pieces with `d` between neighbours. */
  function Joined(v: seq<string>, d: string): string {
    if |v| == 0 then []
    else if |v| == 1 then v[0]
    else Joined(v[..|v| - 1], d) + d + v[|v| - 1]
  }

  /** Join with a string separator (src/StringUtils.cpp:198-211); the
      `ostringstream` is a string that the loop appends to. */
  method Join(v: seq<string>, d: string) returns (output: string)
    ensures output == Joined(v, d)
  {
    output := [];
    var first := false;
    for i := 0 to |v|
      invariant first == (i > 0)
      invariant output == Joined(v[..i], d)
    {
      assert v[..i + 1][..i] == v[..i];
      if !first {
        first := true;
      } else {
        output := output + d;
      }
      output := output + v[i];
    }
    assert v[..|v|] == v;
  }

  /** Join with a character separator (src/StringUtils.cpp:183-196). */
  method JoinWith(v: seq<string>, d: char) returns (output: string)
    ensures output == Joined(v, [d])
  {
    output := Join(v, [d]);
  }

  /** Total length of the pieces. */
  function SumLengths(v: seq<string>): nat {
    if v == [] then 0 else |v[0]| + SumLengths(v[1..])
  }

  lemma {:induction false} SumLengthsSnoc(v: seq<string>, p: string)
    ensures SumLengths(v + [p]) == SumLengths(v) + |p|
  {
    if v != [] {
      assert (v + [p])[1..] == v[1..] + [p];
      SumLengthsSnoc(v[1..], p);
    }
  }

  /** Join of no pieces is empty. */
  lemma JoinEmpty(d: string)
    ensures Joined([], d) == ""
  {
  }

  /** Join adds exactly one separator between each pair of neighbours. */
  lemma {:induction false} JoinedLength(v: seq<string>, d: string)
    requires |v| >= 1
    ensures |Joined(v, d)| == SumLengths(v) + (|v| - 1) * |d|
  {
    if |v| == 1 {
      assert v == [] + [v[0]];
      SumLengthsSnoc([], v[0]);
    } else {
      var init := v[..|v| - 1];
      JoinedLength(init, d);
      assert v == init + [v[|v| - 1]];
      SumLengthsSnoc(init, v[|v| - 1]);
    }
  }

  /** Join read from the front: the first piece, then a separator before
      each further piece. */
  lemma {:induction false} JoinedCons(p: string, v: seq<string>, d: string)
    requires |v| >= 1
    ensures Joined([p] + v, d) == p + d + Joined(v, d)
  {
    if |v| == 1 {
      assert ([p] + v)[..1] == [p];
    } else {
      var init := v[..|v| - 1];
      JoinedCons(p, init, d);
      assert ([p] + v)[..|[p] + v| - 1] == [p] + init;
    }
  }

  lemma {:induction false} TrimmedKeepsLacks(s: string, d: string)
    requires Lacks(s, d)
    ensures Lacks(Trimmed(s), d)
  {
    TrimmedWindow(s);
    var a := |s| - |TrimLeft(s)|;
    var t := Trimmed(s);
    assert t == s[a..a + |t|];
    forall i: nat ensures !OccursAt(t, d, i) {
      if i + |d| <= |t| {
        assert !OccursAt(s, d, a + i);
        var u, w := t[i..i + |d|], s[a + i..a + i + |d|];
        forall m | 0 <= m < |d| ensures u[m] == w[m] {
          assert t[i + m] == s[a + i + m];
        }
        assert u == w;
      }
    }
  }

  /** The piece cut before the first delimiter is trimmed and free of it. */
  lemma FirstPieceFacts(r: string, d: string)
    requires |d| > 0 && Find(r, d) < |r|
    ensures IsTrimmed(Trimmed(r[..Find(r, d)])) && Lacks(Trimmed(r[..Find(r, d)]), d)
  {
    var k := Find(r, d);
    TrimmedWindow(r[..k]);
    forall i: nat ensures !OccursAt(r[..k], d, i) {
      if i + |d| <= k {
        assert !OccursAt(r, d, i);
        assert r[..k][i..i + |d|] == r[i..i + |d|];
      }
    }
    TrimmedKeepsLacks(r[..k], d);
  }

  /** The last piece, with no delimiter in it, is free of the delimiter. */
  lemma LastPieceFacts(r: string, d: string)
    requires |d| > 0 && Find(r, d) == |r|
    ensures Lacks(r, d)
  {
    forall i: nat ensures !OccursAt(r, d, i) {
      if i < |r| {
        assert !OccursAt(r, d, i);
      }
    }
  }

  /** Facts about every piece the loop produces from a trimmed remainder. */
  lemma {:induction false} PiecesFacts(r: string, d: string)
    requires |d| > 0 && IsTrimmed(r)
    ensures forall p | p in Pieces(r, d) :: IsTrimmed(p) && Lacks(p, d)
    ensures Pieces(r, d) == [] <==> r == []
    decreases |r|
  {
    if r != [] {
      var k := Find(r, d);
      if k < |r| {
        var rest := r[k + |d|..];
        TrimmedWindow(rest);
        PiecesFacts(Trimmed(rest), d);
        FirstPieceFacts(r, d);
        PiecesFactsCut(r, d);
      } else {
        assert Pieces(r, d) == [r];
        LastPieceFacts(r, d);
      }
    }
  }

  /** The inductive step of `PiecesFacts`: the first piece and the pieces of
      the rest. */
  lemma PiecesFactsCut(r: string, d: string)
    requires |d| > 0 && r != [] && Find(r, d) < |r|
    requires IsTrimmed(Trimmed(r[..Find(r, d)])) && Lacks(Trimmed(r[..Find(r, d)]), d)
    requires forall p | p in Pieces(Trimmed(r[Find(r, d) + |d|..]), d) :: IsTrimmed(p) && Lacks(p, d)
    ensures forall p | p in Pieces(r, d) :: IsTrimmed(p) && Lacks(p, d)
    ensures Pieces(r, d) != []
  {
    var k := Find(r, d);
    var head := Trimmed(r[..k]);
    var others := Pieces(Trimmed(r[k + |d|..]), d);
    assert Pieces(r, d) == [head] + others;
    forall p | p in [head] + others ensures IsTrimmed(p) && Lacks(p, d) {
      if p != head {
        assert p in others;
      }
    }
  }

  /** Every piece of Split is trimmed and free of the delimiter, and the
      input yields no piece exactly when it is all blanks. */
  lemma SplitFacts(s: string, d: string)
    requires |d| > 0
    ensures forall p | p in Splitted(s, d) :: IsTrimmed(p) && Lacks(p, d)
    ensures Splitted(s, d) == [] <==> forall k | 0 <= k < |s| :: IsBlank(s[k])
  {
    TrimmedWindow(s);
    PiecesFacts(Trimmed(s), d);
    TrimEmptyIffAllBlank(s);
  }

  /** A piece that is non-empty, trimmed and free of a non-blank character. */
  predicate IsPlainPiece(p: string, c: char) {
    p != [] && IsTrimmed(p) && c !in p
  }

  lemma {:induction false} JoinedShape(v: seq<string>, c: char)
    requires |v| >= 1
    requires forall i | 0 <= i < |v| :: IsPlainPiece(v[i], c)
    ensures IsTrimmed(Joined(v, [c]))
    ensures IsPlainPiece(v[0], c)
    ensures |Joined(v, [c])| > 0 && Joined(v, [c])[0] == v[0][0]
  {
    if |v| > 1 {
      JoinedShape(v[..|v| - 1], c);
    }
  }

  /** Split undoes Join for a single-character separator when every piece is
      non-empty, trimmed and free of that character. */
  lemma SplitJoined(v: seq<string>, c: char)
    requires forall i | 0 <= i < |v| :: IsPlainPiece(v[i], c)
    ensures Splitted(Joined(v, [c]), [c]) == v
  {
    if v != [] {
      JoinedShape(v, c);
      TrimOfTrimmed(Joined(v, [c]));
      assert Joined(v, [c]) + [] == Joined(v, [c]);
      PiecesJoined(v, c, []);
    }
  }

  /** A trailing delimiter adds no piece: with a non-blank separator, Split of
      the joined pieces followed by one more separator still gives the pieces. */
  lemma SplitJoinedTrailing(v: seq<string>, c: char)
    requires !IsBlank(c)
    requires forall i | 0 <= i < |v| :: IsPlainPiece(v[i], c)
    ensures Splitted(Joined(v, [c]) + [c], [c]) == if v == [] then [""] else v
  {
    if v != [] {
      JoinedShape(v, c);
      TrimOfTrimmed(Joined(v, [c]) + [c]);
      PiecesJoined(v, c, [c]);
    } else {
      SplitOfDelimiter(c);
    }
  }

  /** A trailing delimiter adds no piece, whatever comes before it (empty
      pieces included), unless the trimmed text already ends in it. A blank
      delimiter at the end is trimmed away before the search even starts. */
  lemma SplitTrailingDelimiter(s: string, c: char)
    requires IsBlank(c) || (Trimmed(s) != [] && Trimmed(s)[|Trimmed(s)| - 1] != c)
    ensures Splitted(s + [c], [c]) == Splitted(s, [c])
  {
    TrimmedSnoc(s, c);
    if !IsBlank(c) {
      var t, l := Trimmed(s), TrimLeft(s);
      TrimRightFacts(l);
      var b := l[|t|..];
      assert l == t + b;
      assert forall k | 0 <= k < |b| :: b[k] == l[|t| + k];
      TrimmedWindow(s);
      PiecesSnoc(t, b, c);
    }
  }

  /** No character before the first occurrence of a one-character delimiter is it. */
  lemma BeforeFirst(r: string, c: char)
    ensures forall i | 0 <= i < Find(r, [c]) :: r[i] != c
    ensures var x := r[..Find(r, [c])]; forall i | 0 <= i < |x| :: x[i] != [c][0]
  {
    forall i | 0 <= i < Find(r, [c]) ensures r[i] != c {
      assert !OccursAt(r, [c], i);
      assert r[i..i + 1] == [r[i]];
    }
  }

  /** Split's loop on a trimmed remainder followed by blanks and one more
      delimiter gives the pieces of the remainder alone. */
  lemma {:induction false} PiecesSnoc(r: string, b: string, c: char)
    requires !IsBlank(c) && r != [] && IsTrimmed(r) && r[|r| - 1] != c
    requires forall k | 0 <= k < |b| :: IsBlank(b[k])
    ensures Pieces(r + b + [c], [c]) == Pieces(r, [c])
    decreases |r|
  {
    var k := Find(r, [c]);
    if k == |r| {
      BeforeFirst(r, c);
      PiecesSnocWhole(r, b, c);
    } else {
      assert r[k..k + 1] == [c];
      var x, y := r[..k], r[k + 1..];
      assert r == x + [c] + y;
      BeforeFirst(r, c);
      PiecesSnocRest(y, b, c, r[|r| - 1]);
      PiecesSnoc(TrimLeft(y), b, c);
      PiecesSnocCut(x, y, TrimLeft(y), b, c);
      GroupTail(x + [c], y, b, [c]);
    }
  }

  /** One round of PiecesSnoc: the first piece is cut the same way with or
      without the delimiter at the end, and the rest follows from the
      remainder after it. */
  lemma PiecesSnocCut(x: string, y: string, y': string, b: string, c: char)
    requires forall i | 0 <= i < |x| :: x[i] != [c][0]
    requires Trimmed(y) == y' && Trimmed(y + b + [c]) == y' + b + [c]
    requires Pieces(y' + b + [c], [c]) == Pieces(y', [c])
    ensures Pieces(x + [c] + (y + b + [c]), [c]) == Pieces(x + [c] + y, [c])
  {
    CutAtFirst(x, [c], y);
    PiecesCut(x, [c], y);
    CutAtFirst(x, [c], y + b + [c]);
    PiecesCut(x, [c], y + b + [c]);
  }

  /** The last three parts of a concatenation grouped together. */
  lemma GroupTail(w: string, y: string, b: string, z: string)
    ensures w + y + b + z == w + (y + b + z)
  {
  }

  /** The last round of PiecesSnoc: no delimiter in `r`, so the delimiter
      added at the end closes the last piece, and the blanks before it are
      trimmed off. */
  lemma PiecesSnocWhole(r: string, b: string, c: char)
    requires !IsBlank(c) && r != [] && IsTrimmed(r)
    requires forall i | 0 <= i < |r| :: r[i] != c
    requires forall k | 0 <= k < |b| :: IsBlank(b[k])
    ensures Pieces(r + b + [c], [c]) == Pieces(r, [c])
  {
    var x, none: string := r + b, [];
    assert none + r + b == x;
    forall i | 0 <= i < |x| ensures x[i] != [c][0] {
      if i >= |r| {
        assert x[i] == b[i - |r|];
      }
    }
    LastRound(x, c);
    TrimOfPadded(none, r, b);
    NoStart(r, [c]);
    PiecesWhole(r, [c]);
  }

  /** A remainder whose only delimiter is its last character is one piece. */
  lemma LastRound(x: string, c: char)
    requires forall i | 0 <= i < |x| :: x[i] != [c][0]
    ensures Pieces(x + [c], [c]) == [Trimmed(x)]
  {
    CutAtFirst(x, [c], []);
    PiecesCut(x, [c], []);
    assert x + [c] + [] == x + [c];
    assert Trimmed([]) == [];
  }

  /** The text after the first delimiter, when it ends in the non-blank
      `last`: trimming it only strips its front, and with the blanks and the
      delimiter after it, trimming strips the same front. */
  lemma PiecesSnocRest(y: string, b: string, c: char, last: char)
    requires !IsBlank(c) && !IsBlank(last) && last != c
    requires y != [] && y[|y| - 1] == last
    requires forall k | 0 <= k < |b| :: IsBlank(b[k])
    ensures var y' := TrimLeft(y);
      y' != [] && IsTrimmed(y') && y'[|y'| - 1] == last && |y'| <= |y| &&
      Trimmed(y) == y' && Trimmed(y + b + [c]) == y' + b + [c]
  {
    TrimLeftFacts(y);
    var y' := TrimLeft(y);
    assert y'[|y'| - 1] == y[|y| - 1];
    TrimmedSnoc(y + b, c);
    TrimLeftAppend(y, b);
  }

  /** The delimiter alone splits into one empty piece. */
  lemma SplitOfDelimiter(c: char)
    requires !IsBlank(c)
    ensures Splitted(Joined([], [c]) + [c], [c]) == [""]
  {
    assert Joined([], [c]) + [c] == [c];
    TrimOfTrimmed([c]);
    PiecesLeadingDelimiter([c], []);
    assert [c] + [] == [c];
    assert Trimmed([]) == [];
  }

  /** A piece free of a character, as the search sees it. */
  lemma PlainPieceHasNoStart(p: string, c: char)
    requires c !in p
    ensures forall i | 0 <= i < |p| :: p[i] != [c][0]
  {
    forall i | 0 <= i < |p| ensures p[i] != [c][0] {
      assert p[i] in p;
    }
  }

  lemma {:induction false} PiecesJoined(v: seq<string>, c: char, tail: string)
    requires |v| >= 1
    requires forall i | 0 <= i < |v| :: IsPlainPiece(v[i], c)
    requires tail == [] || (tail == [c] && !IsBlank(c))
    ensures Pieces(Joined(v, [c]) + tail, [c]) == v
    decreases |v|
  {
    var p := v[0];
    assert IsPlainPiece(p, c);
    if |v| == 1 {
      assert Joined(v, [c]) == p && v == [p];
      PiecesOfLastPiece(p, c, tail);
    } else {
      var rest := v[1..];
      assert v == [p] + rest;
      TrimOfTrimmed(p);
      PlainPieceHasNoStart(p, c);
      JoinedCons(p, rest, [c]);
      var jr := Joined(rest, [c]) + tail;
      assert Joined(v, [c]) + tail == p + [c] + jr;
      CutAtFirst(p, [c], jr);
      PiecesCut(p, [c], jr);
      JoinedShape(rest, c);
      assert IsTrimmed(jr);
      TrimOfTrimmed(jr);
      PiecesJoined(rest, c, tail);
    }
  }

  /** The last piece of `PiecesJoined`, with or without the delimiter after it. */
  lemma PiecesOfLastPiece(p: string, c: char, tail: string)
    requires IsPlainPiece(p, c)
    requires tail == [] || tail == [c]
    ensures Pieces(p + tail, [c]) == [p]
  {
    TrimOfTrimmed(p);
    PlainPieceHasNoStart(p, c);
    if tail != [] {
      assert p + tail == p + [c] + [];
      CutAtFirst(p, [c], []);
      PiecesCut(p, [c], []);
      assert Trimmed([]) == [];
    } else {
      assert p + tail == p;
      NoStart(p, [c]);
      PiecesWhole(p, [c]);
    }
  }

  /** No occurrence of `d` starts at a character other than `d[0]`. */
  lemma NoStart(x: string, d: string)
    requires |d| > 0
    requires forall i | 0 <= i < |x| :: x[i] != d[0]
    ensures forall i: nat | i < |x| :: !OccursAt(x, d, i)
  {
    forall i: nat | i < |x| ensures !OccursAt(x, d, i) {
      if i + |d| <= |x| {
        assert x[i..i + |d|][0] == x[i];
      }
    }
  }

  /** The same, for the text before a delimiter. */
  lemma CutAtFirst(x: string, d: string, y: string)
    requires |d| > 0
    requires forall i | 0 <= i < |x| :: x[i] != d[0]
    ensures forall i: nat | i < |x| :: !OccursAt(x + d + y, d, i)
  {
    var r := x + d + y;
    forall i: nat | i < |x| ensures !OccursAt(r, d, i) {
      if i + |d| <= |r| {
        assert r[i..i + |d|][0] == r[i] == x[i];
      }
    }
  }

  /** No occurrence of a delimiter of two or more characters where no two
      neighbours match its first two. */
  lemma NoPair(y: string, d: string)
    requires |d| >= 2
    requires forall i | 0 <= i < |y| - 1 :: y[i] != d[0] || y[i + 1] != d[1]
    ensures forall i: nat | i < |y| :: !OccursAt(y, d, i)
  {
    forall i: nat | i < |y| ensures !OccursAt(y, d, i) {
      if i + |d| <= |y| {
        assert y[i..i + |d|][0] == y[i];
        assert y[i..i + |d|][1] == y[i + 1];
      }
    }
  }

  /** One round of Split's loop: the remainder is cut at its first
      delimiter, which follows `x`. */
  lemma PiecesCut(x: string, d: string, y: string)
    requires |d| > 0
    requires forall i: nat | i < |x| :: !OccursAt(x + d + y, d, i)
    ensures Pieces(x + d + y, d) == [Trimmed(x)] + Pieces(Trimmed(y), d)
  {
    var r := x + d + y;
    assert r[|x|..|x| + |d|] == d;
    assert OccursAt(r, d, |x|);
    var k := Find(r, d);
    assert k == |x|;
    assert r[..k] == x;
    assert r[k + |d|..] == y;
  }

  /** The last round of Split's loop: a remainder without the delimiter is
      the last piece. */
  lemma PiecesWhole(r: string, d: string)
    requires |d| > 0 && r != []
    requires forall i: nat | i < |r| :: !OccursAt(r, d, i)
    ensures Pieces(r, d) == [r]
  {
  }

  /** A delimiter at the front leaves an empty first piece. */
  lemma PiecesLeadingDelimiter(d: string, y: string)
    requires |d| > 0
    ensures Pieces(d + y, d) == [""] + Pieces(Trimmed(y), d)
  {
    PiecesCut([], d, y);
    assert [] + d + y == d + y;
    assert Trimmed([]) == [];
  }

  /** Two neighbouring delimiters leave an empty piece between them, and so
      does a leading delimiter (src/StringUtils.cpp:173-177). */
  lemma SplitKeepsEmptyPieces()
    ensures Splitted("," + "b", ",") == ["", "b"]
    ensures Splitted("a" + "," + ("," + "b"), ",") == ["a", "", "b"]
  {
    var t := "," + "b";
    TrimOfTrimmed(t);
    TrimOfTrimmed("a");
    TrimOfTrimmed("b");
    PiecesLeadingDelimiter(",", "b");
    NoStart("b", ",");
    PiecesWhole("b", ",");
    var r := "a" + "," + t;
    assert r[0] == 'a' && r[|r| - 1] == 'b';
    TrimOfTrimmed(r);
    CutAtFirst("a", ",", t);
    PiecesCut("a", ",", t);
  }

  /** Split of two pieces around one delimiter. */
  lemma SplittedPair(x: string, d: string, y: string)
    requires |d| > 0
    requires x != [] && y != [] && IsTrimmed(x) && IsTrimmed(y)
    requires forall i | 0 <= i < |x| :: x[i] != d[0]
    requires forall i: nat | i < |y| :: !OccursAt(y, d, i)
    ensures Splitted(x + d + y, d) == [x, y]
  {
    var r := x + d + y;
    assert r[0] == x[0] && r[|r| - 1] == y[|y| - 1];
    TrimOfTrimmed(r);
    TrimOfTrimmed(x);
    TrimOfTrimmed(y);
    CutAtFirst(x, d, y);
    PiecesCut(x, d, y);
    PiecesWhole(y, d);
  }

  /** Split of three pieces around two delimiters. */
  lemma SplittedTriple(x: string, d: string, y: string, z: string)
    requires |d| > 0
    requires x != [] && y != [] && z != [] && IsTrimmed(x) && IsTrimmed(y) && IsTrimmed(z)
    requires forall i | 0 <= i < |x| :: x[i] != d[0]
    requires forall i | 0 <= i < |y| :: y[i] != d[0]
    requires forall i: nat | i < |z| :: !OccursAt(z, d, i)
    ensures Splitted(x + d + (y + d + z), d) == [x, y, z]
  {
    var t := y + d + z;
    var r := x + d + t;
    assert r[0] == x[0] && r[|r| - 1] == z[|z| - 1];
    assert t[0] == y[0] && t[|t| - 1] == z[|z| - 1];
    TrimOfTrimmed(r);
    TrimOfTrimmed(t);
    TrimOfTrimmed(x);
    CutAtFirst(x, d, t);
    PiecesCut(x, d, t);
    TrimOfTrimmed(y);
    TrimOfTrimmed(z);
    CutAtFirst(y, d, z);
    PiecesCut(y, d, z);
    PiecesWhole(z, d);
  }

  /** A piece that Split gives back from a join with `d`: non-empty, trimmed
      and free of the first character of `d`, so that no occurrence of `d`
      can start inside it. */
  predicate IsPieceFor(p: string, d: string) {
    |d| > 0 && p != [] && IsTrimmed(p) && d[0] !in p
  }

  /** Split undoes Join for a separator of any length, and one more separator
      after the join adds no piece when it ends in a non-blank, provided no
      piece holds the separator's first character. */
  lemma SplitJoinedString(v: seq<string>, d: string, tail: string)
    requires |d| > 0
    requires forall i | 0 <= i < |v| :: IsPieceFor(v[i], d)
    requires tail == [] || (v != [] && tail == d && !IsBlank(d[|d| - 1]))
    ensures Splitted(Joined(v, d) + tail, d) == v
  {
    if v == [] {
      assert Joined(v, d) + tail == [];
    } else {
      JoinedShapeFor(v, d);
      var j := Joined(v, d) + tail;
      assert j[0] == v[0][0] && IsTrimmed(j);
      TrimOfTrimmed(j);
      PiecesJoinedFor(v, d, tail);
    }
  }

  lemma {:induction false} JoinedShapeFor(v: seq<string>, d: string)
    requires |v| >= 1
    requires forall i | 0 <= i < |v| :: IsPieceFor(v[i], d)
    ensures IsTrimmed(Joined(v, d))
    ensures IsPieceFor(v[0], d)
    ensures |Joined(v, d)| > 0 && Joined(v, d)[0] == v[0][0]
  {
    if |v| > 1 {
      JoinedShapeFor(v[..|v| - 1], d);
    }
  }

  /** No occurrence of the separator starts inside a piece. */
  lemma PieceForHasNoStart(p: string, d: string)
    requires IsPieceFor(p, d)
    ensures forall i | 0 <= i < |p| :: p[i] != d[0]
  {
    forall i | 0 <= i < |p| ensures p[i] != d[0] {
      assert p[i] in p;
    }
  }

  /** Split's loop cuts a join of pieces, optionally followed by one more
      separator, back into those pieces. */
  lemma {:induction false} PiecesJoinedFor(v: seq<string>, d: string, tail: string)
    requires |d| > 0 && |v| >= 1
    requires forall i | 0 <= i < |v| :: IsPieceFor(v[i], d)
    requires tail == [] || (tail == d && !IsBlank(d[|d| - 1]))
    ensures Pieces(Joined(v, d) + tail, d) == v
    decreases |v|
  {
    if |v| == 1 {
      assert Joined(v, d) == v[0] && v == [v[0]];
      PiecesOfLastPieceFor(v[0], d, tail);
    } else {
      var rest := v[1..];
      assert v == [v[0]] + rest;
      PiecesJoinedFor(rest, d, tail);
      PiecesJoinedForCut(v[0], rest, d, tail);
    }
  }

  /** The last piece of `PiecesJoinedFor`, with or without the separator after it. */
  lemma PiecesOfLastPieceFor(p: string, d: string, tail: string)
    requires IsPieceFor(p, d)
    requires tail == [] || tail == d
    ensures Pieces(p + tail, d) == [p]
  {
    TrimOfTrimmed(p);
    PieceForHasNoStart(p, d);
    if tail == [] {
      assert p + tail == p;
      NoStart(p, d);
      PiecesWhole(p, d);
    } else {
      assert p + tail == p + d + [];
      CutAtFirst(p, d, []);
      PiecesCut(p, d, []);
      assert Trimmed([]) == [];
    }
  }

  /** One round of `PiecesJoinedFor`: the first piece is cut off at the
      separator after it, and the loop goes on with the join of the rest. */
  lemma PiecesJoinedForCut(p: string, rest: seq<string>, d: string, tail: string)
    requires IsPieceFor(p, d) && |rest| >= 1
    requires forall i | 0 <= i < |rest| :: IsPieceFor(rest[i], d)
    requires tail == [] || (tail == d && !IsBlank(d[|d| - 1]))
    requires Pieces(Joined(rest, d) + tail, d) == rest
    ensures Pieces(Joined([p] + rest, d) + tail, d) == [p] + rest
  {
    var jr := Joined(rest, d) + tail;
    JoinedCons(p, rest, d);
    GroupLastTwo(p, d, Joined(rest, d), tail);
    JoinedTailTrimmed(rest, d, tail);
    PiecesPrepend(p, d, jr);
  }

  /** A piece in front of a separator and trimmed text: the loop cuts the
      piece off there. */
  lemma PiecesPrepend(p: string, d: string, r: string)
    requires IsPieceFor(p, d) && Trimmed(r) == r
    ensures Pieces(p + d + r, d) == [p] + Pieces(r, d)
  {
    TrimOfTrimmed(p);
    PieceForHasNoStart(p, d);
    CutAtFirst(p, d, r);
    PiecesCut(p, d, r);
  }

  /** The last two parts of a concatenation grouped together. */
  lemma GroupLastTwo(a: string, b: string, c: string, e: string)
    ensures a + b + c + e == a + b + (c + e)
  {
  }

  /** A join of pieces, optionally followed by a separator that ends in a
      non-blank, is already trimmed. */
  lemma JoinedTailTrimmed(v: seq<string>, d: string, tail: string)
    requires |v| >= 1
    requires forall i | 0 <= i < |v| :: IsPieceFor(v[i], d)
    requires tail == [] || (tail == d && !IsBlank(d[|d| - 1]))
    ensures Trimmed(Joined(v, d) + tail) == Joined(v, d) + tail
  {
    var j := Joined(v, d);
    JoinedShapeFor(v, d);
    if tail == [] {
      assert j + tail == j;
    } else {
      assert (j + tail)[0] == j[0] && (j + tail)[|j + tail| - 1] == d[|d| - 1];
    }
    TrimOfTrimmed(j + tail);
  }

  /** With a delimiter that overlaps itself, a trailing delimiter is not
      harmless: `"a:"` is one piece, but in `"a:" + "::"` the first `"::"`
      starts at the `':'` of `"a:"`, so the first piece changes and a second
      one appears. */
  lemma SplitTrailingOverlap()
    ensures Splitted("a:", "::") == ["a:"]
    ensures Splitted("a:" + "::", "::") == ["a", ":"]
  {
    TrimOfTrimmed("a:");
    NoPair("a:", "::");
    PiecesWhole("a:", "::");
    assert "a:" + "::" == "a" + "::" + ":";
    NoPair(":", "::");
    SplittedPair("a", "::", ":");
  }

  /** Split does not undo Join for a delimiter that overlaps itself: the
      pieces `"a:"` and `"b"` are non-empty, trimmed and free of `"::"`, yet
      their join `"a:::b"` splits into `"a"` and `":b"`. */
  lemma SplitJoinedOverlap()
    ensures IsTrimmed("a:") && IsTrimmed("b") && Lacks("a:", "::") && Lacks("b", "::")
    ensures Splitted(Joined(["a:", "b"], "::"), "::") == ["a", ":b"]
  {
    NoPair("a:", "::");
    NoPair("b", "::");
    assert Joined(["a:", "b"], "::") == "a" + "::" + ":b";
    NoPair(":b", "::");
    SplittedPair("a", "::", ":b");
  }

  /** The example of the source's unit test (test/src/StringUtilsTests.cpp:78-81). */
  lemma SplitAtExample()
    ensures Splitted("Hello," + " " + "World!", " ") == ["Hello,", "World!"]
  {
    NoStart("World!", " ");
    SplittedPair("Hello,", " ", "World!");
  }

  /** The example of the source's unit test (test/src/StringUtilsTests.cpp:83-87):
      the colon inside the last piece is not the delimiter. */
  lemma SplitExample()
    ensures Splitted("Hello" + "::" + ("World!" + "::" + "My:Darling"), "::") == ["Hello", "World!", "My:Darling"]
  {
    NoPair("My:Darling", "::");
    SplittedTriple("Hello", "::", "World!", "My:Darling");
  }

  /** The examples of the source's unit tests (test/src/StringUtilsTests.cpp:89-97). */
  lemma JoinExamples()
    ensures Joined(["Hello", "World!"], "-") == "Hello-World!"
    ensures Joined(["Hello", "World!"], ", ") == "Hello, World!"
  {
    assert ["Hello", "World!"][..1] == ["Hello"];
  }
}
