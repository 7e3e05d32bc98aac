/** Width-aware layout of text: wrapping, truncation and filling, for any widths of the characters. */
module TextLayout {

  type Widths = char -> nat

  const NEWLINE := '\n'

  function Width(width: Widths, s: string): nat {
    if s == [] then 0 else Width(width, s[..|s| - 1]) + width(s[|s| - 1])
  }

  lemma {:induction false} WidthAppend(width: Widths, s: string, t: string)
    ensures Width(width, s + t) == Width(width, s) + Width(width, t)
  {
    if t == [] {
      assert s + t == s;
    } else {
      assert (s + t)[..|s + t| - 1] == s + t[..|t| - 1];
      WidthAppend(width, s, t[..|t| - 1]);
    }
  }

  lemma WidthPrefix(width: Widths, s: string, i: nat, j: nat)
    requires i <= j <= |s|
    ensures Width(width, s[..i]) <= Width(width, s[..j])
  {
    assert s[..j] == s[..i] + s[i..j];
    WidthAppend(width, s[..i], s[i..j]);
  }

  method StringWidth(width: Widths, s: string) returns (n: nat)
    ensures n == Width(width, s)
  {
    n := 0;
    for i := 0 to |s|
      invariant n == Width(width, s[..i])
    {
      n := n + width(s[i]);
      assert s[..i + 1][..i] == s[..i];
    }
    assert s[..|s|] == s;
  }

  // ----- truncation -----

  /** A text that fits comes back unchanged; otherwise the longest prefix that leaves room for the tail,
      and the tail. The result fits exactly when the text did or the tail does. */
  method Truncate(width: Widths, s: string, w: int, tail: string) returns (r: string)
    ensures Width(width, s) <= w ==> r == s
    ensures Width(width, s) > w ==> exists i: nat :: CutAt(width, s, w - Width(width, tail), i) && r == s[..i] + tail
    ensures Width(width, r) <= w <==> Width(width, s) <= w || Width(width, tail) <= w
  {
    var all := StringWidth(width, s);
    if all <= w {
      return s;
    }
    var tw := StringWidth(width, tail);
    var room := w - tw;
    var n, i := 0, 0;
    while i < |s| && n + width(s[i]) <= room
      invariant i <= |s| && n == Width(width, s[..i]) && (i > 0 ==> n <= room)
    {
      n := n + width(s[i]);
      i := i + 1;
      assert s[..i][..i - 1] == s[..i - 1];
    }
    CutHere(width, s, room, i);
    r := s[..i] + tail;
    WidthAppend(width, s[..i], tail);
  }

  /** i is the length of the longest prefix of width at most `room`, or 0 when there is none. */
  ghost predicate CutAt(width: Widths, s: string, room: int, i: nat) {
    && i <= |s| && (i == 0 || Width(width, s[..i]) <= room)
    && forall j: nat | j <= |s| && Width(width, s[..j]) <= room :: j <= i
  }

  lemma CutHere(width: Widths, s: string, room: int, i: nat)
    requires i <= |s| && (i == 0 || Width(width, s[..i]) <= room) && Width(width, s) > room
    requires i < |s| ==> Width(width, s[..i]) + width(s[i]) > room
    ensures CutAt(width, s, room, i)
  {
    assert s[..|s|] == s;
    if i < |s| {
      assert s[..i + 1][..i] == s[..i];
      forall j: nat | j <= |s| && Width(width, s[..j]) <= room
        ensures j <= i
      {
        if j > i {
          WidthPrefix(width, s, i + 1, j);
        }
      }
    }
  }

  // ----- wrapping -----

  /** The lines of a text, without their newlines. */
  function Lines(s: string): (ls: seq<string>)
    ensures ls != []
  {
    if s == [] then [[]]
    else
      var ls := Lines(s[..|s| - 1]);
      if s[|s| - 1] == NEWLINE then ls + [[]]
      else ls[..|ls| - 1] + [ls[|ls| - 1] + [s[|s| - 1]]]
  }

  function LastLine(s: string): string {
    var ls := Lines(s);
    ls[|ls| - 1]
  }

  predicate AllFit(width: Widths, ls: seq<string>, w: int) {
    forall i | 0 <= i < |ls| :: Width(width, ls[i]) <= w
  }

  predicate Fits(width: Widths, s: string, w: int) {
    AllFit(width, Lines(s), w)
  }

  /** t is s with newlines inserted. */
  predicate WithNewlines(s: string, t: string) {
    if t == [] then s == []
    else
      var front, last := t[..|t| - 1], t[|t| - 1];
      || (s != [] && s[|s| - 1] == last && WithNewlines(s[..|s| - 1], front))
      || (last == NEWLINE && WithNewlines(s, front))
  }

  /** What the loop has written after s. */
  function Wrapped(width: Widths, s: string, w: int): string {
    if s == [] then []
    else
      var out, r := Wrapped(width, s[..|s| - 1], w), s[|s| - 1];
      Emit(width, out, r, w)
  }

  function Emit(width: Widths, out: string, r: char, w: int): string {
    if r == NEWLINE || Width(width, LastLine(out)) + width(r) <= w then out + [r] else out + [NEWLINE] + [r]
  }

  /** One turn of the loop, with the column it leaves. */
  lemma WrapNext(width: Widths, s: string, i: nat, w: int)
    requires i < |s|
    ensures var out, next, r := Wrapped(width, s[..i], w), Wrapped(width, s[..i + 1], w), s[i];
            var column := Width(width, LastLine(out));
            if r == NEWLINE then next == out + [r] && Width(width, LastLine(next)) == 0
            else if column + width(r) <= w then next == out + [r] && Width(width, LastLine(next)) == column + width(r)
            else next == out + [NEWLINE] + [r] && Width(width, LastLine(next)) == width(r)
  {
    var out, r := Wrapped(width, s[..i], w), s[i];
    assert s[..i + 1][..i] == s[..i];
    LastLineAppend(width, out, r);
    LastLineAppend(width, out, NEWLINE);
    LastLineAppend(width, out + [NEWLINE], r);
  }

  method Wrap(width: Widths, s: string, w: int) returns (out: string)
    ensures out == Wrapped(width, s, w)
  {
    var col: nat := 0;
    out := [];
    for i := 0 to |s|
      invariant out == Wrapped(width, s[..i], w) && col == Width(width, LastLine(out))
    {
      var r := s[i];
      var cw := width(r);
      WrapNext(width, s, i, w);
      if r == NEWLINE {
        out := out + [r];
        col := 0;
        continue;
      } else if col + cw > w {
        out := out + [NEWLINE];
        col := 0;
        out := out + [r];
        col := col + cw;
        continue;
      }
      out := out + [r];
      col := col + cw;
    }
    assert s[..|s|] == s;
  }

  lemma LastLineAppend(width: Widths, s: string, r: char)
    ensures LastLine(s + [r]) == if r == NEWLINE then [] else LastLine(s) + [r]
    ensures Width(width, LastLine(s + [r])) == if r == NEWLINE then 0 else Width(width, LastLine(s)) + width(r)
  {
    assert (s + [r])[..|s|] == s;
    assert (LastLine(s) + [r])[..|LastLine(s)|] == LastLine(s);
  }

  lemma LinesAppend(s: string, r: char)
    ensures Lines(s + [r]) == if r == NEWLINE then Lines(s) + [[]] else Lines(s)[..|Lines(s)| - 1] + [LastLine(s) + [r]]
  {
    assert (s + [r])[..|s|] == s;
  }

  // ----- what wrapping does -----

  lemma {:induction false} OnlyNewlinesAdded(width: Widths, s: string, w: int)
    ensures WithNewlines(s, Wrapped(width, s, w))
  {
    if s != [] {
      var front, r := s[..|s| - 1], s[|s| - 1];
      var out := Wrapped(width, front, w);
      OnlyNewlinesAdded(width, front, w);
      assert (out + [r])[..|out|] == out && (out + [NEWLINE])[..|out|] == out;
      assert (out + [NEWLINE] + [r])[..|out| + 1] == out + [NEWLINE];
    }
  }

  /** No character other than a newline is wider than a line. */
  predicate Narrow(width: Widths, s: string, w: int) {
    forall i | 0 <= i < |s| && s[i] != NEWLINE :: width(s[i]) <= w
  }

  lemma AllFitAppend(width: Widths, ls: seq<string>, line: string, w: int)
    ensures AllFit(width, ls + [line], w) <==> AllFit(width, ls, w) && Width(width, line) <= w
  {
    var all := ls + [line];
    if AllFit(width, all, w) {
      forall i | 0 <= i < |ls|
        ensures Width(width, ls[i]) <= w
      {
        assert all[i] == ls[i];
      }
      assert all[|ls|] == line;
    }
  }

  lemma FitsAppend(width: Widths, s: string, r: char, w: int)
    requires w >= 0
    ensures Fits(width, s + [r], w)
            <==> Fits(width, s, w) && (r == NEWLINE || Width(width, LastLine(s)) + width(r) <= w)
  {
    LastLineAppend(width, s, r);
    LinesAppend(s, r);
    var ls := Lines(s);
    if r == NEWLINE {
      AllFitAppend(width, ls, [], w);
    } else {
      var front, last := ls[..|ls| - 1], ls[|ls| - 1];
      assert ls == front + [last];
      AllFitAppend(width, front, last, w);
      AllFitAppend(width, front, last + [r], w);
    }
  }

  lemma {:induction false} FitsNarrow(width: Widths, s: string, w: int)
    requires w >= 0 && Fits(width, s, w)
    ensures Narrow(width, s, w)
  {
    if s != [] {
      var front, r := s[..|s| - 1], s[|s| - 1];
      assert s == front + [r];
      FitsAppend(width, front, r, w);
      FitsNarrow(width, front, w);
    }
  }

  lemma EmitFits(width: Widths, out: string, r: char, w: int)
    requires w >= 0 && Fits(width, out, w) && (r == NEWLINE || width(r) <= w)
    ensures Fits(width, Emit(width, out, r, w), w)
  {
    FitsAppend(width, out, r, w);
    FitsAppend(width, out, NEWLINE, w);
    FitsAppend(width, out + [NEWLINE], r, w);
    LastLineAppend(width, out, NEWLINE);
  }

  /** If a character is too wide, so is its line, however it was wrapped. */
  lemma {:induction false} WrapNarrow(width: Widths, s: string, w: int)
    ensures Narrow(width, Wrapped(width, s, w), w) ==> Narrow(width, s, w)
  {
    if s != [] {
      var front, r := s[..|s| - 1], s[|s| - 1];
      var out := Wrapped(width, front, w);
      var all := Emit(width, out, r, w);
      WrapNarrow(width, front, w);
      if Narrow(width, all, w) {
        assert all[|all| - 1] == r;
        forall i | 0 <= i < |out| && out[i] != NEWLINE
          ensures width(out[i]) <= w
        {
          assert all[i] == out[i];
        }
      }
    }
  }

  lemma {:induction false} WrapFits(width: Widths, s: string, w: int)
    requires w >= 0 && Narrow(width, s, w)
    ensures Fits(width, Wrapped(width, s, w), w)
  {
    if s != [] {
      var front, r := s[..|s| - 1], s[|s| - 1];
      WrapFits(width, front, w);
      EmitFits(width, Wrapped(width, front, w), r, w);
    }
  }

  /** Wrapping leaves exactly those texts alone whose lines fit. */
  lemma {:induction false} UnchangedIffFits(width: Widths, s: string, w: int)
    requires w >= 0
    ensures Wrapped(width, s, w) == s <==> Fits(width, s, w)
  {
    if s != [] {
      var front, r := s[..|s| - 1], s[|s| - 1];
      assert s == front + [r];
      UnchangedIffFits(width, front, w);
      FitsAppend(width, front, r, w);
      var out := Wrapped(width, front, w);
      WrapGrows(width, front, w);
      if Wrapped(width, s, w) == s {
        assert |out| == |front|;
        SameLength(width, front, w);
      }
    }
  }

  lemma {:induction false} WrapGrows(width: Widths, s: string, w: int)
    ensures |Wrapped(width, s, w)| >= |s|
  {
    if s != [] {
      WrapGrows(width, s[..|s| - 1], w);
    }
  }

  lemma {:induction false} SameLength(width: Widths, s: string, w: int)
    requires |Wrapped(width, s, w)| == |s|
    ensures Wrapped(width, s, w) == s
  {
    if s != [] {
      var front := s[..|s| - 1];
      WrapGrows(width, front, w);
      SameLength(width, front, w);
      assert s == front + [s[|s| - 1]];
    }
  }

  /** With a negative width a newline goes in front of every other character. */
  lemma {:induction false} NegativeWidth(width: Widths, s: string, w: int)
    requires w < 0
    ensures Wrapped(width, s, w) == s <==> Narrow(width, s, w)
    ensures Narrow(width, s, w) ==> Narrow(width, Wrapped(width, s, w), w)
  {
    if s != [] {
      var front, r := s[..|s| - 1], s[|s| - 1];
      var out := Wrapped(width, front, w);
      assert s == front + [r];
      NegativeWidth(width, front, w);
      WrapGrows(width, front, w);
      if Wrapped(width, s, w) == s {
        assert |out| == |front|;
        SameLength(width, front, w);
      }
    }
  }

  /** Of all texts made by inserting newlines whose lines fit, the wrapped one is the shortest, and of the shortest
      ones it has the narrowest last line. */
  lemma {:induction false} ShortestWrap(width: Widths, s: string, t: string, w: int)
    requires w >= 0 && WithNewlines(s, t) && Fits(width, t, w)
    ensures var out := Wrapped(width, s, w);
            && |out| <= |t|
            && (|out| == |t| ==> Width(width, LastLine(out)) <= Width(width, LastLine(t)))
    decreases |t|
  {
    if t != [] {
      var before, last := t[..|t| - 1], t[|t| - 1];
      assert t == before + [last];
      FitsAppend(width, before, last, w);
      if s != [] && s[|s| - 1] == last && WithNewlines(s[..|s| - 1], before) {
        ShortestWrap(width, s[..|s| - 1], before, w);
        EmitShortest(width, Wrapped(width, s[..|s| - 1], w), before, last, w);
      } else {
        ShortestWrap(width, s, before, w);
      }
    }
  }

  lemma EmitShortest(width: Widths, out: string, t: string, r: char, w: int)
    requires w >= 0 && Fits(width, t + [r], w)
    requires |out| <= |t| && (|out| == |t| ==> Width(width, LastLine(out)) <= Width(width, LastLine(t)))
    ensures var longer := Emit(width, out, r, w);
            && |longer| <= |t + [r]|
            && (|longer| == |t + [r]| ==> Width(width, LastLine(longer)) <= Width(width, LastLine(t + [r])))
  {
    FitsAppend(width, t, r, w);
    LastLineAppend(width, t, r);
    if r == NEWLINE || Width(width, LastLine(out)) + width(r) <= w {
      LastLineAppend(width, out, r);
    } else {
      assert |out| < |t|;
      LastLineAppend(width, out, NEWLINE);
      LastLineAppend(width, out + [NEWLINE], r);
    }
  }

  /** Every line of the result fits, and wrapping again changes nothing, exactly when no character is
      wider than the line; for the widths 0, 1 and 2 of the program this holds whenever w is at least 2. */
  lemma WrapLaws(width: Widths, s: string, w: int)
    ensures Fits(width, Wrapped(width, s, w), w) <==> w >= 0 && Narrow(width, s, w)
    ensures Wrapped(width, Wrapped(width, s, w), w) == Wrapped(width, s, w) <==> Narrow(width, s, w)
    ensures w >= 2 && (forall c :: width(c) <= 2) ==> Narrow(width, s, w)
  {
    var out := Wrapped(width, s, w);
    if w < 0 {
      assert Width(width, Lines(out)[0]) >= 0;
      NegativeWidth(width, s, w);
      NegativeWidth(width, out, w);
      WrapNarrow(width, s, w);
    } else {
      UnchangedIffFits(width, out, w);
      if Fits(width, out, w) {
        FitsNarrow(width, out, w);
        WrapNarrow(width, s, w);
      }
      if Narrow(width, s, w) {
        WrapFits(width, s, w);
      }
    }
  }

  /** For one, a character of width 2 on lines of width 1: each wrapping puts one newline more in front. */
  lemma TooWide(width: Widths, c: char)
    requires width(c) == 2 && c != NEWLINE
    ensures Wrapped(width, [c], 1) == [NEWLINE, c] && Wrapped(width, [NEWLINE, c], 1) == [NEWLINE, NEWLINE, c]
  {
    assert [c][..0] == [] && Lines([]) == [[]];
    assert [NEWLINE, c][..1] == [NEWLINE] && [NEWLINE][..0] == [];
    assert Wrapped(width, [NEWLINE], 1) == [NEWLINE];
    LastLineAppend(width, [], NEWLINE);
    assert [] + [NEWLINE] == [NEWLINE];
  }

  // ----- filling -----

  function Spaces(n: nat): string {
    seq(n, _ => ' ')
  }

  lemma {:induction false} WidthOfSame(width: Widths, n: nat, c: char)
    requires width(c) == 1
    ensures Width(width, seq(n, _ => c)) == n
  {
    if n > 0 {
      assert seq(n, _ => c)[..n - 1] == seq(n - 1, _ => c);
      WidthOfSame(width, n - 1, c);
    }
  }

  lemma NewSpaces(s: string)
    requires forall i | 0 <= i < |s| :: s[i] == ' '
    ensures s == Spaces(|s|)
  {
  }

  /** Padding on the left or on the right to at least w columns; a wider text is left alone. */
  method FillLeft(width: Widths, s: string, w: int) returns (r: string)
    requires width(' ') == 1
    ensures exists n: nat :: r == Spaces(n) + s
    ensures Width(width, r) == if Width(width, s) < w then w else Width(width, s)
  {
    var n := StringWidth(width, s);
    var count := w - n;
    if count > 0 {
      var b := Fill(count);
      WidthOfSame(width, count, ' ');
      WidthAppend(width, b, s);
      return b + s;
    }
    assert Spaces(0) + s == s;
    r := s;
  }

  method Fill(count: nat) returns (b: string)
    ensures b == Spaces(count)
  {
    var buf := new char[count];
    for i := 0 to count
      invariant forall j | 0 <= j < i :: buf[j] == ' '
    {
      buf[i] := ' ';
    }
    b := buf[..];
    NewSpaces(b);
  }

  method FillRight(width: Widths, s: string, w: int) returns (r: string)
    requires width(' ') == 1
    ensures exists n: nat :: r == s + Spaces(n)
    ensures Width(width, r) == if Width(width, s) < w then w else Width(width, s)
  {
    var n := StringWidth(width, s);
    var count := w - n;
    if count > 0 {
      var b := Fill(count);
      WidthOfSame(width, count, ' ');
      WidthAppend(width, s, b);
      return s + b;
    }
    assert s + Spaces(0) == s;
    r := s;
  }
}
