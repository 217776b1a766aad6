/**
 * The scan of the line buffer after each read: comments and blanks are
 * cleaned up in place, and what does not fit in yet is squeezed at the end.
 */
module LineScan {

  import opened Common
  import opened LineText

  /** A part of the buffer, split at p into x and y. */
  ghost predicate At(buf: array<Byte>, line: nat, p: nat, rend: nat, x: Text, y: Text)
    reads buf
  {
    line <= p <= rend <= buf.Length && buf[line..p] == x && buf[p..rend] == y
  }

  lemma Advance(buf: array<Byte>, line: nat, p: nat, rend: nat, x: Text, y: Text)
    requires At(buf, line, p, rend, x, y) && p < rend
    ensures buf[p] == y[0] && At(buf, line, p + 1, rend, x + [y[0]], y[1..])
    ensures x + y == x + [y[0]] + y[1..]
  {
  }

  /** Where the newlines are. */
  ghost function Newlines(buf: array<Byte>): set<nat>
    reads buf
  {
    set j: nat | j < buf.Length && buf[j] == NEWLINE
  }

  method Put(buf: array<Byte>, ghost line: nat, p: nat, ghost rend: nat, ghost x: Text, ghost y: Text, c: Byte)
    requires At(buf, line, p, rend, x, y) && p < rend && buf[p] != NEWLINE && c != NEWLINE
    modifies buf
    ensures At(buf, line, p + 1, rend, x + [c], y[1..])
    ensures Newlines(buf) == old(Newlines(buf))
  {
    buf[p] := c;
    assert buf[p + 1..rend] == y[1..];
  }

  datatype QuoteEnd = Closed | AtNewline | AtEnd

  /** x, then z, then y: a clean part, what follows in the same line, and what is still to come. */
  ghost predicate Scanned(buf: array<Byte>, line: nat, p: nat, rend: nat, x: Text, z: Text, y: Text, m: Mode)
    reads buf
  {
    At(buf, line, p, rend, x + z, y) && NEWLINE !in z && CleanMode(Out, x + z) == Some(m)
  }

  lemma Took(buf: array<Byte>, line: nat, p: nat, rend: nat, x: Text, z: Text, y: Text, m: Mode, c: Byte)
    requires NEWLINE !in z && CleanMode(Out, x + z) == Some(m) && c != NEWLINE
    requires At(buf, line, p, rend, x + z + [c], y)
    requires m == Out ==> c != SEMICOLON && (IsBlank(c) ==> c == SPACE)
    requires m.Quoted? ==> c != NUL
    ensures Scanned(buf, line, p, rend, x, z + [c], y, NextMode(m, c))
  {
    CleanConcat(Out, x + z, [c]);
    assert x + z + [c] == x + (z + [c]);
  }

  method Take(buf: array<Byte>, line: nat, p: nat, rend: nat, ghost x: Text, ghost z: Text, ghost y: Text,
              ghost m: Mode)
      returns (c: Byte)
    requires Scanned(buf, line, p, rend, x, z, y, m) && p < rend && buf[p] != NEWLINE
    requires m == Out ==> buf[p] != SEMICOLON && !IsBlank(buf[p])
    requires m.Quoted? ==> buf[p] != NUL
    ensures y != [] && c == buf[p] == y[0] && c != NEWLINE
    ensures Scanned(buf, line, p + 1, rend, x, z + [c], y[1..], NextMode(m, c))
    ensures x + (z + [c]) + y[1..] == x + z + y
  {
    c := buf[p];
    Advance(buf, line, p, rend, x + z, y);
    Took(buf, line, p + 1, rend, x, z, y[1..], m, c);
  }

  lemma NulFound(buf: array<Byte>, line: nat, p: nat, rend: nat, x: Text, z: Text, y: Text, m: Mode)
    requires Scanned(buf, line, p, rend, x, z, y, m) && m.Quoted? && p < rend && buf[p] == NUL
    ensures Parse(NOTHING, x + z + y).quotedNul
  {
    CleanModeIsMode(NOTHING, x + z);
    ParseConcat(NOTHING, x + z, y);
    ParseFindsNul(Parse(NOTHING, x + z), y);
  }

  /** From a quotation mark to behind its partner, or to the end of the line or of the buffer. */
  method ScanQuote(buf: array<Byte>, line: nat, start: nat, rend: nat, ghost x: Text, ghost z0: Text, ghost y0: Text)
      returns (p: nat, end: QuoteEnd, nul: bool, ghost z: Text, ghost y: Text, ghost m: Mode)
    requires start < rend <= buf.Length && Scanned(buf, line, start, rend, x, z0, y0, Out) && IsQuote(buf[start])
    modifies buf
    ensures Newlines(buf) == old(Newlines(buf))
    ensures start < p <= rend && Scanned(buf, line, p, rend, x, z, y, m)
    ensures if nul then Parse(NOTHING, x + z0 + y0).quotedNul else x + z + y == x + z0 + y0
    ensures end == Closed ==> m == Out
    ensures end == AtNewline ==> p < rend && buf[p] == NEWLINE
    ensures end == AtEnd ==> p == rend
  {
    hide Scanned, CleanMode, Newlines, Parse;
    nul := false;
    var pc := Take(buf, line, start, rend, x, z0, y0, Out);
    p, z, y, m := start + 1, z0 + [pc], y0[1..], Quoted(pc);
    while true
      invariant start < p <= rend && Scanned(buf, line, p, rend, x, z, y, m) && m == Quoted(pc)
      invariant Newlines(buf) == old(Newlines(buf))
      invariant if nul then Parse(NOTHING, x + z0 + y0).quotedNul else x + z + y == x + z0 + y0
      decreases rend - p
    {
      if p == rend { return p, AtEnd, nul, z, y, m; }
      if buf[p] == NEWLINE { return p, AtNewline, nul, z, y, m; }
      if buf[p] == NUL {
        NulFound(buf, line, p, rend, x, z, y, m);
        nul := true;
        Blank(buf, line, p, rend, x, z, y, m);
        z, y := z + [SPACE], y[1..];
        p := p + 1;
      } else {
        var c := Take(buf, line, p, rend, x, z, y, m);
        z, y, m := z + [c], y[1..], NextMode(m, c);
        p := p + 1;
        if c == pc { return p, Closed, nul, z, y, m; }
      }
    }
  }

  /** A character is overwritten by a space. */
  method Blank(buf: array<Byte>, line: nat, p: nat, rend: nat, ghost x: Text, ghost z: Text, ghost y: Text,
               ghost m: Mode)
    requires Scanned(buf, line, p, rend, x, z, y, m) && p < rend && (m == Out || m.Quoted?) && buf[p] != NEWLINE
    modifies buf
    ensures Newlines(buf) == old(Newlines(buf))
    ensures y != [] && Scanned(buf, line, p + 1, rend, x, z + [SPACE], y[1..], NextMode(m, SPACE))
  {
    Put(buf, line, p, rend, x + z, y, SPACE);
    Took(buf, line, p + 1, rend, x, z, y[1..], m, SPACE);
  }

  function Spaces(n: nat): (s: Text)
    ensures |s| == n && AllBlank(s) && forall i :: 0 <= i < n ==> s[i] == SPACE
  {
    seq(n, _ => SPACE)
  }

  lemma OneMoreSpace(z: Text, n: nat)
    ensures z + Spaces(n) + [SPACE] == z + Spaces(n + 1) && z + Spaces(0) == z
  {
  }

  ghost predicate WholeLines(x: Text) {
    x == [] || x[|x| - 1] == NEWLINE
  }

  /** The same text to the parser. */
  ghost predicate SameParse(s: Text, t: Text) {
    Parse(NOTHING, s) == Parse(NOTHING, t)
  }

  lemma AtStart(buf: array<Byte>, line: nat, p: nat, rend: nat, x: Text, z: Text, y: Text, m: Mode)
    requires Scanned(buf, line, p, rend, x, z, y, m)
    ensures rend <= buf.Length && p == line + |x| + |z| && |y| == rend - p
    ensures p < rend ==> y[0] == buf[p]
    ensures CleanMode(Out, x + z) == Some(m) && NEWLINE !in z
  {
  }

  lemma NoNewlineYet(y: Text, k: nat)
    requires k < |y| && NEWLINE !in y[..k] && y[k..][0] != NEWLINE
    ensures NEWLINE !in y[..k + 1] && y[k..][1..] == y[k + 1..]
  {
    assert y[..k + 1] == y[..k] + [y[k]];
  }

  lemma CommentIsSpaces(x: Text, z: Text, comment: Text, y: Text)
    requires CleanMode(Out, x + z) == Some(Out)
    requires comment != [] && comment[0] == SEMICOLON && NEWLINE !in comment && y != [] && y[0] == NEWLINE
    ensures SameParse(x + (z + Spaces(|comment|)) + y, x + z + (comment + y))
  {
    hide CleanMode;
    BlankedComment(x + z, comment, Spaces(|comment|), y);
    assert x + z + comment + y == x + z + (comment + y);
    assert x + z + Spaces(|comment|) + y == x + (z + Spaces(|comment|)) + y;
  }

  lemma CommentIsSemicolon(x: Text, z: Text, comment: Text)
    requires CleanMode(Out, x + z) == Some(Out)
    requires comment != [] && comment[0] == SEMICOLON && NEWLINE !in comment
    ensures SameParse(x + z + [SEMICOLON], x + z + comment)
  {
    CutComment(x + z, comment);
  }

  lemma AtPlace(buf: array<Byte>, line: nat, p: nat, rend: nat, x: Text, z: Text, y: Text, m: Mode)
    requires Scanned(buf, line, p, rend, x, z, y, m)
    ensures rend <= buf.Length && |y| == rend - p && (p < rend ==> y[0] == buf[p])
  {
  }

  /** A comment is overwritten by spaces, up to the newline or to the end of the buffer. */
  method BlankComment(buf: array<Byte>, line: nat, start: nat, rend: nat, ghost x: Text, ghost z0: Text, ghost y0: Text)
      returns (p: nat, ghost z: Text, ghost y: Text)
    requires start < rend <= buf.Length && Scanned(buf, line, start, rend, x, z0, y0, Out) && buf[start] == SEMICOLON
    modifies buf
    ensures Newlines(buf) == old(Newlines(buf))
    ensures start < p <= rend && Scanned(buf, line, p, rend, x, z, y, Out)
    ensures z0 <= z && |z| == |z0| + (p - start)
    ensures p < rend ==> buf[p] == NEWLINE && SameParse(x + z + y, x + z0 + y0)
    ensures p == rend ==> SameParse(x + z0 + [SEMICOLON], x + z0 + y0)
  {
    AtStart(buf, line, start, rend, x, z0, y0, Out);
    hide Scanned, CleanMode, Spaces, SameParse, AllBlank, IsBlank, Newlines;
    p, z, y := start, z0, y0;
    OneMoreSpace(z0, 0);
    assert y0[0..] == y0 && y0[..0] == [];
    while p != rend && buf[p] != NEWLINE
      invariant start <= p <= rend && |y0| == rend - start && y0[0] == SEMICOLON
      invariant z == z0 + Spaces(p - start) && y == y0[p - start..] && NEWLINE !in y0[..p - start]
      invariant Scanned(buf, line, p, rend, x, z, y, Out) && Newlines(buf) == old(Newlines(buf))
      invariant p == start ==> buf[p] == SEMICOLON
      decreases rend - p
    {
      AtPlace(buf, line, p, rend, x, z, y, Out);
      Blank(buf, line, p, rend, x, z, y, Out);
      OneMoreSpace(z0, p - start);
      NoNewlineYet(y0, p - start);
      z, y := z + [SPACE], y[1..];
      p := p + 1;
    }
    AtStart(buf, line, p, rend, x, z, y, Out);
    var comment := y0[..p - start];
    assert y0 == comment + y;
    if p < rend {
      CommentIsSpaces(x, z0, comment, y);
    } else {
      assert comment == y0;
      CommentIsSemicolon(x, z0, y0);
    }
  }

  /** Before a comment that goes on, the blanks are dropped, but not those of lines before. */
  method TrimBlanks(buf: array<Byte>, line: nat, start: nat, ghost x: Text, ghost z0: Text)
      returns (liner: nat, ghost z: Text)
    requires Scanned(buf, line, start, start, x, z0, [], Out) && WholeLines(x)
    ensures Scanned(buf, line, liner, liner, x, z, [], Out) && line <= liner <= start
    ensures SameParse(x + z + [SEMICOLON], x + z0 + [SEMICOLON])
  {
    hide Scanned, WholeLines, SameParse, CleanMode, IsBlank;
    liner, z := start, z0;
    AtStart(buf, line, start, start, x, z0, [], Out);
    SameAsItself(x + z0 + [SEMICOLON]);
    while liner != line && buf[liner - 1] != NEWLINE && IsBlank(buf[liner - 1])
      invariant line <= liner <= start && Scanned(buf, line, liner, liner, x, z, [], Out)
      invariant SameParse(x + z + [SEMICOLON], x + z0 + [SEMICOLON])
      decreases liner
    {
      OneBlankLess(buf, line, liner, x, z);
      SameIsTransitive(x + z[..|z| - 1] + [SEMICOLON], x + z + [SEMICOLON], x + z0 + [SEMICOLON]);
      z := z[..|z| - 1];
      liner := liner - 1;
    }
  }

  lemma SameAsItself(s: Text)
    ensures SameParse(s, s)
  {
  }

  lemma OneBlankLess(buf: array<Byte>, line: nat, liner: nat, x: Text, z: Text)
    requires Scanned(buf, line, liner, liner, x, z, [], Out) && WholeLines(x)
    requires line < liner <= buf.Length && buf[liner - 1] != NEWLINE && IsBlank(buf[liner - 1])
    ensures z != [] && Scanned(buf, line, liner - 1, liner - 1, x, z[..|z| - 1], [], Out)
    ensures SameParse(x + z[..|z| - 1] + [SEMICOLON], x + z + [SEMICOLON])
  {
    hide CleanMode, IsBlank;
    assert buf[liner - 1] == buf[line..liner][liner - 1 - line];
    var b, s := z[|z| - 1], x + z[..|z| - 1];
    assert x + z == s + [b];
    BlankBeforeComment(s, b);
    assert buf[line..liner - 1] == buf[line..liner][..liner - 1 - line] == s;
    assert forall i :: 0 <= i < |z| - 1 ==> z[..|z| - 1][i] == z[i];
  }

  lemma OneMoreBlank(y: Text, k: nat)
    requires k < |y| && AllBlank(y[..k]) && IsBlank(y[k..][0])
    ensures AllBlank(y[..k + 1]) && y[k..][1..] == y[k + 1..] && y[0..] == y
  {
  }

  /** n characters from the start of y0 have been blanks, and are spaces now. */
  ghost predicate Blanked(buf: array<Byte>, line: nat, liner: nat, rend: nat, x: Text, z0: Text, y0: Text, n: nat)
    reads buf
  {
    n <= |y0| && AllBlank(y0[..n]) && Scanned(buf, line, liner, rend, x, z0 + Spaces(n), y0[n..], Out)
  }

  lemma BlankIsNoNewline(c: Byte)
    requires IsBlank(c)
    ensures c != NEWLINE
  {
  }

  method BlankNext(buf: array<Byte>, line: nat, liner: nat, rend: nat, ghost x: Text, ghost z0: Text, ghost y0: Text,
                   ghost n: nat)
    requires liner < rend <= buf.Length && IsBlank(buf[liner]) && Blanked(buf, line, liner, rend, x, z0, y0, n)
    modifies buf
    ensures Newlines(buf) == old(Newlines(buf))
    ensures Blanked(buf, line, liner + 1, rend, x, z0, y0, n + 1)
  {
    BlankIsNoNewline(buf[liner]);
    hide Scanned, CleanMode, Spaces, AllBlank, IsBlank, Newlines;
    AtPlace(buf, line, liner, rend, x, z0 + Spaces(n), y0[n..], Out);
    OneMoreBlank(y0, n);
    Blank(buf, line, liner, rend, x, z0 + Spaces(n), y0[n..], Out);
    OneMoreSpace(z0, n);
  }

  lemma NothingBlanked(buf: array<Byte>, line: nat, start: nat, rend: nat, x: Text, z0: Text, y0: Text)
    requires Scanned(buf, line, start, rend, x, z0, y0, Out)
    ensures Blanked(buf, line, start, rend, x, z0, y0, 0) && |y0| == rend - start
  {
    OneMoreSpace(z0, 0);
    assert y0[0..] == y0;
  }

  /** A run of blanks is overwritten by spaces. */
  method BlankRun(buf: array<Byte>, line: nat, start: nat, rend: nat, ghost x: Text, ghost z0: Text, ghost y0: Text)
      returns (liner: nat)
    requires start < rend <= buf.Length && Scanned(buf, line, start, rend, x, z0, y0, Out) && IsBlank(buf[start])
    modifies buf
    ensures Newlines(buf) == old(Newlines(buf))
    ensures start < liner <= rend && |y0| == rend - start
    ensures Blanked(buf, line, liner, rend, x, z0, y0, liner - start)
  {
    hide Scanned, Blanked, IsBlank, Newlines, CleanMode, Spaces, AllBlank;
    NothingBlanked(buf, line, start, rend, x, z0, y0);
    BlankNext(buf, line, start, rend, x, z0, y0, 0);
    liner := start + 1;
    while liner != rend && IsBlank(buf[liner])
      invariant start < liner <= rend && Blanked(buf, line, liner, rend, x, z0, y0, liner - start)
      invariant Newlines(buf) == old(Newlines(buf))
      decreases rend - liner
    {
      BlankNext(buf, line, liner, rend, x, z0, y0, liner - start);
      liner := liner + 1;
    }
  }

  /** The whole run is as good as its first space, and as good as that many spaces. */
  lemma RunIsSpace(x: Text, z: Text, y: Text, n: nat)
    requires CleanMode(Out, x + z) == Some(Out) && 0 < n <= |y| && AllBlank(y[..n])
    ensures SameParse(x + (z + [SPACE]) + (Spaces(n - 1) + y[n..]), x + z + y)
    ensures n == |y| ==> SameParse(x + (z + [SPACE]) + [], x + z + y)
    ensures z + Spaces(n) == (z + [SPACE]) + Spaces(n - 1)
  {
    hide CleanMode;
    assert y == y[..n] + y[n..];
    assert x + z + y[..n] + y[n..] == x + z + y;
    SameBlanks(x + z, y[..n], Spaces(n), y[n..]);
    assert Spaces(n) == [SPACE] + Spaces(n - 1);
    assert x + z + Spaces(n) + y[n..] == x + (z + [SPACE]) + (Spaces(n - 1) + y[n..]);
    if n == |y| {
      SameBlanks(x + z, y, [SPACE], []);
      assert x + z + [SPACE] + [] == x + (z + [SPACE]) + [];
      assert x + z + y + [] == x + z + y;
    }
  }

  /** A run of blanks; at the end of the buffer only its first space is kept. */
  method ScanBlanks(buf: array<Byte>, line: nat, start: nat, rend: nat, ghost x: Text, ghost z0: Text, ghost y0: Text)
      returns (end: nat, ghost y: Text)
    requires start < rend <= buf.Length && Scanned(buf, line, start, rend, x, z0, y0, Out) && IsBlank(buf[start])
    modifies buf
    ensures Newlines(buf) == old(Newlines(buf))
    ensures forall j :: end <= j < rend ==> j !in Newlines(buf)
    ensures end == start + 1 || end == rend
    ensures Scanned(buf, line, start + 1, end, x, z0 + [SPACE], y, Out)
    ensures SameParse(x + (z0 + [SPACE]) + y, x + z0 + y0)
  {
    hide Scanned, CleanMode, Spaces, SameParse, Newlines;
    AtStart(buf, line, start, rend, x, z0, y0, Out);
    var liner := BlankRun(buf, line, start, rend, x, z0, y0);
    ghost var n := liner - start;
    NoNewlines(buf, line, liner, rend, x, z0 + Spaces(n), y0[n..], Out);
    RunIsSpace(x, z0, y0, n);
    BackUp(buf, line, start + 1, liner, rend, x, z0 + [SPACE], Spaces(n - 1), y0[n..]);
    end, y := rend, Spaces(n - 1) + y0[n..];
    if liner == rend { end, y := start + 1, []; }
  }

  lemma {:induction false} BlanksBehind(s: Text, b: Text)
    requires CleanMode(Out, s + b) == Some(Out) && AllBlank(b)
    ensures CleanMode(Out, s) == Some(Out)
    decreases |b|
  {
    if b == [] {
      assert s + b == s;
    } else {
      var c, d := b[..|b| - 1], b[|b| - 1];
      assert s + b == s + c + [d];
      BlankBeforeComment(s + c, d);
      BlanksBehind(s, c);
    }
  }

  /** Looked at from an earlier position, where the rest can be left out. */
  lemma BackUp(buf: array<Byte>, line: nat, p: nat, liner: nat, rend: nat, x: Text, z: Text, b: Text, y: Text)
    requires Scanned(buf, line, liner, rend, x, z + b, y, Out) && p == line + |x| + |z| && AllBlank(b)
    ensures Scanned(buf, line, p, rend, x, z, b + y, Out) && Scanned(buf, line, p, p, x, z, [], Out)
  {
    hide CleanMode, IsBlank;
    var s := x + z;
    assert x + (z + b) == s + b;
    BlanksBehind(s, b);
    assert forall i :: 0 <= i < |z| ==> (z + b)[i] == z[i];
    SliceParts(buf, line, liner, s, b);
    SliceJoins(buf, p, liner, rend);
  }

  lemma SliceParts(buf: array<Byte>, line: nat, liner: nat, s: Text, b: Text)
    requires line <= liner <= buf.Length && buf[line..liner] == s + b
    ensures line + |s| <= liner && buf[line..line + |s|] == s && buf[line + |s|..liner] == b
  {
    assert |s + b| == liner - line;
    assert buf[line..line + |s|] == buf[line..liner][..|s|];
    assert buf[line + |s|..liner] == buf[line..liner][|s|..];
  }

  lemma SliceJoins(buf: array<Byte>, p: nat, liner: nat, rend: nat)
    requires p <= liner <= rend <= buf.Length
    ensures buf[p..rend] == buf[p..liner] + buf[liner..rend]
  {
  }

  /** An earlier part of what was scanned, whose mode is known. */
  lemma Earlier(buf: array<Byte>, line: nat, start: nat, p: nat, rend: nat, x: Text, z0: Text, z: Text, y: Text)
    requires Scanned(buf, line, p, rend, x, z, y, Out) && z0 <= z && start == line + |x| + |z0|
    requires CleanMode(Out, x + z0) == Some(Out)
    ensures Scanned(buf, line, start, start, x, z0, [], Out)
  {
    assert forall i :: 0 <= i < |z0| ==> z0[i] == z[i];
    assert buf[line..start] == buf[line..p][..start - line] == x + z0;
  }

  /** What has been scanned of the current line has no newline. */
  lemma NoNewlines(buf: array<Byte>, line: nat, p: nat, rend: nat, x: Text, z: Text, y: Text, m: Mode)
    requires Scanned(buf, line, p, rend, x, z, y, m)
    ensures forall j :: line + |x| <= j < p ==> j !in Newlines(buf)
  {
    assert forall j :: line + |x| <= j < p ==> buf[j] == (x + z)[j - line] == z[j - line - |x|];
  }

  /** A comment, from its semicolon on; if it does not end in the buffer, the buffer will end in the semicolon. */
  method ScanComment(buf: array<Byte>, line: nat, start: nat, rend0: nat, ghost x: Text, ghost z0: Text, ghost y0: Text)
      returns (p: nat, rend: nat, ghost z: Text, ghost y: Text)
    requires start < rend0 <= buf.Length && Scanned(buf, line, start, rend0, x, z0, y0, Out)
    requires buf[start] == SEMICOLON && WholeLines(x)
    modifies buf
    ensures Newlines(buf) == old(Newlines(buf))
    ensures forall j :: rend <= j < rend0 ==> j !in Newlines(buf)
    ensures line + |x| <= p <= rend <= rend0
    ensures p < rend ==> rend == rend0 && start < p && buf[p] == NEWLINE
    ensures p < rend ==> Scanned(buf, line, p, rend, x, z, y, Out) && SameParse(x + z + y, x + z0 + y0)
    ensures p == rend ==> buf[line..rend] == x + z && NEWLINE !in z && SameParse(x + z, x + z0 + y0)
    ensures p == rend ==> !Parse(NOTHING, x + z).quotedNul
  {
    hide Scanned, CleanMode, SameParse, WholeLines, Newlines, Parse;
    AtStart(buf, line, start, rend0, x, z0, y0, Out);
    p, z, y := BlankComment(buf, line, start, rend0, x, z0, y0);
    if p < rend0 { return p, rend0, z, y; }
    AtStart(buf, line, p, rend0, x, z, y, Out);
    NoNewlines(buf, line, p, rend0, x, z, y, Out);
    Earlier(buf, line, start, p, rend0, x, z0, z, y);
    var liner;
    liner, z := TrimBlanks(buf, line, start, x, z0);
    AtStart(buf, line, liner, liner, x, z, [], Out);
    EndAt(buf, line, liner, x, z);
    NoNulBefore(x + z);
    PutSemicolon(buf, liner);
    rend, p := liner + 1, liner + 1;
    assert buf[line..rend] == x + z + [SEMICOLON] == x + (z + [SEMICOLON]);
    SameIsTransitive(x + z + [SEMICOLON], x + z0 + [SEMICOLON], x + z0 + y0);
    z := z + [SEMICOLON];
  }

  lemma NoNulBefore(s: Text)
    requires CleanMode(Out, s) == Some(Out)
    ensures !Parse(NOTHING, s + [SEMICOLON]).quotedNul
  {
    CleanModeIsMode(NOTHING, s);
    ParseConcat(NOTHING, s, [SEMICOLON]);
  }

  method PutSemicolon(buf: array<Byte>, p: nat)
    requires p < buf.Length && p !in Newlines(buf)
    modifies buf
    ensures buf[..] == old(buf[..])[p := SEMICOLON] && Newlines(buf) == old(Newlines(buf))
  {
    buf[p] := SEMICOLON;
  }

  lemma EndAt(buf: array<Byte>, line: nat, p: nat, x: Text, z: Text)
    requires Scanned(buf, line, p, p, x, z, [], Out)
    ensures line <= p <= buf.Length && buf[line..p] == x + z
  {
  }

  lemma SameIsTransitive(s: Text, t: Text, u: Text)
    requires SameParse(s, t) && SameParse(t, u)
    ensures SameParse(s, u)
  {
  }

  // ----- one scan of the buffer -----

  /** The text s is as good as seg, unless a quoted NUL has been found in seg. */
  ghost predicate Kept(nul: bool, s: Text, seg: Text) {
    if nul then Parse(NOTHING, seg).quotedNul else SameParse(s, seg)
  }

  lemma StaysKept(nul: bool, s: Text, t: Text, seg: Text)
    requires Kept(nul, t, seg) && SameParse(s, t)
    ensures Kept(nul, s, seg)
  {
  }

  lemma KeptByQuote(nul: bool, n: bool, s: Text, t: Text, seg: Text)
    requires Kept(nul, t, seg) && if n then Parse(NOTHING, t).quotedNul else s == t
    ensures Kept(nul || n, s, seg)
  {
  }

  lemma KeptAtEnd(nul: bool, s: Text, seg: Text)
    requires Kept(nul, s, seg) && !Parse(NOTHING, s).quotedNul
    ensures nul <==> Parse(NOTHING, seg).quotedNul
    ensures !nul ==> SameParse(s, seg)
  {
  }

  /** The newline behind z makes it a whole line. */
  lemma LineDone(buf: array<Byte>, line: nat, p: nat, rend: nat, x: Text, z: Text, y: Text, m: Mode)
    requires Scanned(buf, line, p, rend, x, z, y, m) && p < rend && buf[p] == NEWLINE
    ensures y != [] && Scanned(buf, line, p + 1, rend, x + z + [NEWLINE], [], y[1..], Out)
    ensures WholeLines(x + z + [NEWLINE])
    ensures x + z + [NEWLINE] + [] + y[1..] == x + z + y
  {
    Advance(buf, line, p, rend, x + z, y);
    CleanConcat(Out, x + z, [NEWLINE]);
    assert x + z + [NEWLINE] + [] == x + z + [NEWLINE];
  }

  /**
   * The scan after a read: all of the buffer from line on is cleaned up. What
   * the parser makes of it stays the same, unless there was a quoted NUL, and
   * nul says whether there was. It ends in a partial line at linep; unfinished says that this line has a
   * comment, of which only the semicolon is left.
   */
  method Scan(buf: array<Byte>, line: nat, rend0: nat) returns (linep: nat, rend: nat, unfinished: bool, nul: bool)
    requires line <= rend0 <= buf.Length
    modifies buf
    ensures Newlines(buf) == old(Newlines(buf))
    ensures forall j :: rend <= j < rend0 ==> j !in Newlines(buf)
    ensures line <= linep <= rend <= rend0
    ensures !nul ==> SameParse(buf[line..rend], old(buf[line..rend0]))
    ensures nul <==> Parse(NOTHING, old(buf[line..rend0])).quotedNul
    ensures CleanMode(Out, buf[line..linep]) == Some(Out) && WholeLines(buf[line..linep])
    ensures NEWLINE !in buf[linep..rend]
  {
    hide Scanned, CleanMode, SameParse, WholeLines, Newlines, Parse, Kept;
    rend, linep, unfinished, nul := rend0, line, false, false;
    var p := line;
    ghost var x, z, y, m, seg: Text := [], [], buf[line..rend], Out, buf[line..rend];
    AtLineStart(buf, line, rend);
    while p != rend
      invariant line <= linep <= p <= rend <= rend0 && Scanned(buf, line, p, rend, x, z, y, m)
      invariant WholeLines(x) && CleanMode(Out, x) == Some(Out) && linep == line + |x|
      invariant Kept(nul, x + z + y, seg)
      invariant p < rend ==> m == Out
      invariant Newlines(buf) == old(Newlines(buf)) && forall j :: rend <= j < rend0 ==> j !in Newlines(buf)
      decreases rend - p
    {
      AtStart(buf, line, p, rend, x, z, y, m);
      var pc := buf[p];
      var newline := pc == NEWLINE;
      ghost var before := x + z + y;
      if IsQuote(pc) {
        var end, n;
        p, end, n, z, y, m := ScanQuote(buf, line, p, rend, x, z, y);
        KeptByQuote(nul, n, x + z + y, before, seg);
        nul := nul || n;
        newline := end == AtNewline;
      } else if pc == SEMICOLON {
        p, rend, z, y := ScanComment(buf, line, p, rend, x, z, y);
        if p == rend {
          StaysKept(nul, x + z, before, seg);
          KeptAtEnd(nul, x + z, seg);
          unfinished := true;
          Ends(buf, line, linep, rend, x, z);
          return;
        }
        StaysKept(nul, x + z + y, before, seg);
        newline := true;
      } else if pc != NEWLINE && IsBlank(pc) {
        rend, y := ScanBlanks(buf, line, p, rend, x, z, y);
        z := z + [SPACE];
        p := p + 1;
        StaysKept(nul, x + z + y, before, seg);
      } else if pc != NEWLINE {
        var c := Take(buf, line, p, rend, x, z, y, m);
        z, y := z + [c], y[1..];
        p := p + 1;
      }
      if newline {
        LineDone(buf, line, p, rend, x, z, y, m);
        x, z, y, m := x + z + [NEWLINE], [], y[1..], Out;
        p := p + 1;
        linep := p;
        AtStart(buf, line, p, rend, x, z, y, m);
        assert x + z == x;
      }
    }
    AtStart(buf, line, p, rend, x, z, y, m);
    ScannedAll(buf, line, rend, x, z, m);
    assert x + z + [] == x + z;
    KeptAtEnd(nul, x + z, seg);
    Ends(buf, line, linep, rend, x, z);
  }

  lemma ScannedAll(buf: array<Byte>, line: nat, rend: nat, x: Text, z: Text, m: Mode)
    requires Scanned(buf, line, rend, rend, x, z, [], m)
    ensures line <= rend <= buf.Length && buf[line..rend] == x + z
    ensures !Parse(NOTHING, x + z).quotedNul
  {
    CleanModeIsMode(NOTHING, x + z);
  }

  lemma SameNul(s: Text, t: Text)
    requires SameParse(s, t)
    ensures Parse(NOTHING, s).quotedNul == Parse(NOTHING, t).quotedNul
  {
  }

  lemma Ends(buf: array<Byte>, line: nat, linep: nat, rend: nat, x: Text, z: Text)
    requires line <= linep <= rend <= buf.Length && buf[line..rend] == x + z && linep == line + |x|
    ensures buf[line..linep] == x && buf[linep..rend] == z
  {
    assert buf[line..linep] == buf[line..rend][..|x|];
    assert buf[linep..rend] == buf[line..rend][|x|..];
  }

  lemma AtLineStart(buf: array<Byte>, line: nat, rend: nat)
    requires line <= rend <= buf.Length
    ensures Scanned(buf, line, line, rend, [], [], buf[line..rend], Out)
    ensures Kept(false, [] + [] + buf[line..rend], buf[line..rend])
    ensures WholeLines([]) && CleanMode(Out, []) == Some(Out)
  {
    assert buf[line..line] == [];
    assert [] + [] + buf[line..rend] == buf[line..rend];
  }
}
