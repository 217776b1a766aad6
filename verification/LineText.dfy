/**
 * What the line reader is for: source lines without comments, without
 * trailing blanks, and with any run of blanks outside quotes as good as a
 * single space. Split, cut, squeeze and trim say so for a whole file at once;
 * Parse says the same byte by byte, for a file that arrives in pieces.
 */
module LineText {

  import opened Common

  type Text = seq<Byte>

  const NUL: Byte := 0
  const NEWLINE: Byte := 10
  const SPACE: Byte := 32
  const SEMICOLON: Byte := 59

  predicate IsQuote(c: Byte) {
    c == 34 || c == 39
  }

  /** isspace, and NUL; a newline is not one of them. */
  predicate IsBlank(c: Byte) {
    c == NUL || c == SPACE || c == 9 || 11 <= c <= 13
  }

  /** In ASCII: NUL, TAB, VT, FF, CR and the space; the two quotation marks. */
  lemma CharacterClasses(c: Byte)
    ensures IsBlank(c) <==> c in {0, 9, 11, 12, 13, 32}
    ensures IsQuote(c) <==> c in {0x22, 0x27}
  {
  }

  datatype Mode = Out | Quoted(q: Byte) | Comment

  function NextMode(m: Mode, c: Byte): Mode {
    if c == NEWLINE then Out
    else match m
         case Out => if IsQuote(c) then Quoted(c) else if c == SEMICOLON then Comment else Out
         case Quoted(q) => if c == q then Out else m
         case Comment => Comment
  }

  // ----- the simple form -----

  /** The lines of a text, each of which is ended by a newline. */
  function Lines(s: Text): seq<Text> {
    if s == [] then [] else Continued(s[0], Lines(s[1..]))
  }

  function Continued(c: Byte, lines: seq<Text>): seq<Text> {
    if c == NEWLINE then [[]] + lines
    else if lines == [] then []
    else [[c] + lines[0]] + lines[1..]
  }

  /** Up to a semicolon that is not quoted. */
  function Cut(m: Mode, s: Text): Text
    decreases |s|
  {
    if s == [] || (m == Out && s[0] == SEMICOLON) then [] else [s[0]] + Cut(NextMode(m, s[0]), s[1..])
  }

  /** A run of blanks that is not quoted becomes one space, and goes away at the end. */
  function Squeeze(m: Mode, blank: bool, s: Text): Text
    decreases |s|
  {
    if s == [] then []
    else if m == Out && IsBlank(s[0]) then Squeeze(m, true, s[1..])
    else (if blank then [SPACE] else []) + [s[0]] + Squeeze(NextMode(m, s[0]), false, s[1..])
  }

  /** Without spaces at the end, where a quote may be left open. */
  function Trim(s: Text): (t: Text)
    ensures t <= s
    ensures t != [] ==> t[|t| - 1] != SPACE
  {
    if s != [] && s[|s| - 1] == SPACE then Trim(s[..|s| - 1]) else s
  }

  function Tidy(line: Text): Text {
    Trim(Squeeze(Out, false, Cut(Out, line)))
  }

  // ----- byte by byte -----

  // A line so far: its text, whether blanks are pending, and what comes next.
  datatype Line = Line(text: Text, blank: bool, mode: Mode)

  const START := Line([], false, Out)

  function Step(l: Line, c: Byte): Line {
    if l.mode == Comment then l
    else if l.mode == Out && c == SEMICOLON then Line(l.text, false, Comment)
    else if l.mode == Out && IsBlank(c) then Line(l.text, true, Out)
    else Line(l.text + (if l.blank then [SPACE] else []) + [c], false, NextMode(l.mode, c))
  }

  // The lines that are complete, tidied up, the one that is not, and whether
  // there was a NUL between quotes.
  datatype Parsed = Parsed(lines: seq<Text>, last: Line, quotedNul: bool)

  function Found(lines: seq<Text>): Parsed {
    Parsed(lines, START, false)
  }

  const NOTHING := Found([])

  function Next(p: Parsed, c: Byte): Parsed {
    if c == NEWLINE then p.(lines := p.lines + [Trim(p.last.text)], last := START)
    else p.(last := Step(p.last, c), quotedNul := p.quotedNul || (p.last.mode.Quoted? && c == NUL))
  }

  function Parse(p: Parsed, s: Text): Parsed
    decreases |s|
  {
    if s == [] then p else Parse(Next(p, s[0]), s[1..])
  }

  lemma {:induction false} ParseConcat(p: Parsed, s: Text, t: Text)
    ensures Parse(p, s + t) == Parse(Parse(p, s), t)
    decreases |s|
  {
    if s == [] {
      assert [] + t == t;
    } else {
      assert (s + t)[1..] == s[1..] + t;
      ParseConcat(Next(p, s[0]), s[1..], t);
    }
  }

  /** Lines found earlier stay what they are. */
  lemma {:induction false} ParseAfter(p: Parsed, s: Text)
    ensures var q := Parse(Parsed([], p.last, false), s);
            Parse(p, s) == Parsed(p.lines + q.lines, q.last, p.quotedNul || q.quotedNul)
    decreases |s|
  {
    if s != [] {
      var a, b := Next(p, s[0]), Next(Parsed([], p.last, false), s[0]);
      ParseAfter(a, s[1..]);
      ParseAfter(b, s[1..]);
      assert a.lines == p.lines + b.lines;
    }
  }

  /** A NUL between quotes; of a comment nothing counts. */
  predicate HasQuotedNul(m: Mode, s: Text)
    decreases |s|
  {
    s != [] && ((m.Quoted? && s[0] == NUL) || HasQuotedNul(NextMode(m, s[0]), s[1..]))
  }

  lemma {:induction false} ParseFindsNul(p: Parsed, s: Text)
    ensures Parse(p, s).quotedNul <==> p.quotedNul || HasQuotedNul(p.last.mode, s)
    decreases |s|
  {
    if s != [] { ParseFindsNul(Next(p, s[0]), s[1..]); }
  }

  lemma NothingToSqueeze(m: Mode, blank: bool)
    ensures Squeeze(m, blank, Cut(m, [])) == []
  {
  }

  lemma SqueezeFirst(m: Mode, blank: bool, s: Text)
    requires s != [] && m != Comment
    ensures var c, next := s[0], NextMode(m, s[0]);
            Squeeze(m, blank, Cut(m, s)) ==
            if m == Out && c == SEMICOLON then []
            else if m == Out && IsBlank(c) then Squeeze(Out, true, Cut(next, s[1..]))
            else (if blank then [SPACE] else []) + [c] + Squeeze(next, false, Cut(next, s[1..]))
  {
    var rest := Cut(NextMode(m, s[0]), s[1..]);
    assert ([s[0]] + rest)[1..] == rest;
  }

  /** Within one line, the text grows by what cutting and squeezing leave of it. */
  lemma {:induction false} ParseWithinLine(p: Parsed, s: Text)
    requires NEWLINE !in s && (p.last.mode == Comment ==> !p.last.blank)
    ensures Parse(p, s).lines == p.lines
    ensures Parse(p, s).last.text == p.last.text + Remains(p.last, s)
    decreases |s|
  {
    hide Squeeze, Cut, Step;
    if s == [] {
      NothingToSqueeze(p.last.mode, p.last.blank);
    } else {
      StepSqueezes(p.last, s);
      var q := Next(p, s[0]);
      assert q.lines == p.lines && q.last == Step(p.last, s[0]);
      ParseWithinLine(q, s[1..]);
    }
  }

  /** What is left of a line that goes on with s. */
  function Remains(l: Line, s: Text): Text {
    if l.mode == Comment then [] else Squeeze(l.mode, l.blank, Cut(l.mode, s))
  }

  lemma StepSqueezes(l: Line, s: Text)
    requires s != [] && s[0] != NEWLINE && (l.mode == Comment ==> !l.blank)
    ensures var n := Step(l, s[0]);
            && l.text + Remains(l, s) == n.text + Remains(n, s[1..])
            && (n.mode == Comment ==> !n.blank)
  {
    hide Squeeze, Cut;
    if l.mode != Comment { SqueezeFirst(l.mode, l.blank, s); }
  }

  function TidyAll(lines: seq<Text>): (t: seq<Text>)
    ensures |t| == |lines| && forall k :: 0 <= k < |t| ==> t[k] == Tidy(lines[k])
  {
    if lines == [] then [] else [Tidy(lines[0])] + TidyAll(lines[1..])
  }

  predicate EndsInNewline(s: Text) {
    s == [] || s[|s| - 1] == NEWLINE
  }

  lemma FirstLine(s: Text, t: Text)
    requires NEWLINE !in s
    ensures Lines(s + [NEWLINE] + t) == [s] + Lines(t)
    decreases |s|
  {
    var u := s + [NEWLINE] + t;
    if s == [] {
      assert u[1..] == t;
    } else {
      FirstLine(s[1..], t);
      assert u[1..] == s[1..] + [NEWLINE] + t;
      assert [s[0]] + s[1..] == s;
      assert ([s[1..]] + Lines(t))[1..] == Lines(t);
    }
  }

  lemma SplitFirst(s: Text) returns (line: Text, rest: Text)
    requires s != [] && EndsInNewline(s)
    ensures s == line + [NEWLINE] + rest && NEWLINE !in line && EndsInNewline(rest) && |rest| < |s|
  {
    hide FirstNewline;
    var i := FirstNewline(s);
    line, rest := s[..i], s[i + 1..];
    assert rest != [] ==> rest[|rest| - 1] == s[|s| - 1];
  }

  /** The two forms agree: parsing a whole file gives its lines, tidied up. */
  lemma {:induction false} ParseIsTidyLines(s: Text)
    requires EndsInNewline(s)
    ensures Parse(NOTHING, s) == Parsed(TidyAll(Lines(s)), START, HasQuotedNul(Out, s))
    decreases |s|
  {
    hide Tidy, Lines, Parse, HasQuotedNul, TidyAll;
    ParseFindsNul(NOTHING, s);
    if s != [] {
      var line, rest := SplitFirst(s);
      FirstLine(line, rest);
      ParseFirstLine([], line, rest);
      ParseAfter(Parsed([] + [Tidy(line)], START, HasQuotedNul(Out, line)), rest);
      ParseIsTidyLines(rest);
      TidyAllFirst(line, Lines(rest));
    } else {
      NothingToParse();
    }
  }

  lemma TidyAllFirst(line: Text, rest: seq<Text>)
    ensures TidyAll([line] + rest) == [] + [Tidy(line)] + TidyAll(rest)
  {
    hide Tidy;
    assert ([line] + rest)[1..] == rest;
  }

  lemma NothingToParse()
    ensures TidyAll([]) == []
    ensures Parse(NOTHING, []) == NOTHING && Lines([]) == [] && !HasQuotedNul(Out, [])
  {
  }

  function FirstNewline(s: Text): (i: nat)
    requires s != [] && s[|s| - 1] == NEWLINE
    ensures i < |s| && s[i] == NEWLINE && NEWLINE !in s[..i]
  {
    if s[0] == NEWLINE then 0
    else
      var i := 1 + FirstNewline(s[1..]);
      assert s[..i] == [s[0]] + s[1..][..i - 1];
      i
  }

  // ----- clean text -----

  /**
   * The mode at the end of text without comments and quoted NULs in which all
   * blanks outside quotes are spaces; else None.
   */
  function CleanMode(m: Mode, s: Text): Option<Mode>
    decreases |s|
  {
    if s == [] then Some(m)
    else if m == Out && (s[0] == SEMICOLON || (IsBlank(s[0]) && s[0] != SPACE)) then None
    else if m.Quoted? && s[0] == NUL then None
    else CleanMode(NextMode(m, s[0]), s[1..])
  }

  predicate IsClean(s: Text) {
    CleanMode(Out, s) != None
  }

  lemma {:induction false} CleanConcat(m: Mode, s: Text, t: Text)
    ensures CleanMode(m, s + t) == if CleanMode(m, s) == None then None else CleanMode(CleanMode(m, s).value, t)
    decreases |s|
  {
    if s == [] {
      assert [] + t == t;
    } else {
      assert (s + t)[1..] == s[1..] + t;
      CleanConcat(NextMode(m, s[0]), s[1..], t);
    }
  }

  lemma {:induction false} CleanNeedsNoCut(m: Mode, s: Text)
    requires CleanMode(m, s) != None && m != Comment && NEWLINE !in s
    ensures Cut(m, s) == s
    decreases |s|
  {
    if s != [] { CleanNeedsNoCut(NextMode(m, s[0]), s[1..]); }
  }

  // ----- rewriting that makes no difference -----

  lemma {:induction false} CleanModeIsMode(p: Parsed, s: Text)
    requires CleanMode(p.last.mode, s) != None && p.last.mode != Comment
    ensures Parse(p, s).last.mode == CleanMode(p.last.mode, s).value
    ensures Parse(p, s).last.mode != Comment && Parse(p, s).quotedNul == p.quotedNul
    decreases |s|
  {
    if s != [] { CleanModeIsMode(Next(p, s[0]), s[1..]); }
  }

  predicate AllBlank(s: Text) {
    forall i :: 0 <= i < |s| ==> IsBlank(s[i])
  }

  lemma {:induction false} BlanksParse(p: Parsed, s: Text)
    requires p.last.mode == Out && AllBlank(s) && s != []
    ensures Parse(p, s) == p.(last := Line(p.last.text, true, Out))
    decreases |s|
  {
    if |s| > 1 { BlanksParse(Next(p, s[0]), s[1..]); }
  }

  lemma {:induction false} InComment(p: Parsed, s: Text)
    requires p.last.mode == Comment && NEWLINE !in s
    ensures Parse(p, s) == p
    decreases |s|
  {
    if s != [] { InComment(p, s[1..]); }
  }

  /** Blanks are as good as other blanks. */
  lemma SameBlanks(x: Text, b: Text, c: Text, y: Text)
    requires CleanMode(Out, x) == Some(Out) && AllBlank(b) && AllBlank(c) && b != [] && c != []
    ensures Parse(NOTHING, x + b + y) == Parse(NOTHING, x + c + y)
  {
    var p := NOTHING;
    CleanModeIsMode(p, x);
    BlanksParse(Parse(p, x), b);
    BlanksParse(Parse(p, x), c);
    ParseConcat(p, x, b);
    ParseConcat(p, x, c);
    ParseConcat(p, x + b, y);
    ParseConcat(p, x + c, y);
  }

  /** A comment that ends is as good as blanks. */
  lemma BlankedComment(x: Text, comment: Text, b: Text, y: Text)
    requires CleanMode(Out, x) == Some(Out) && AllBlank(b) && b != []
    requires comment != [] && comment[0] == SEMICOLON && NEWLINE !in comment
    requires y != [] && y[0] == NEWLINE
    ensures Parse(NOTHING, x + comment + y) == Parse(NOTHING, x + b + y)
  {
    var p := NOTHING;
    CleanModeIsMode(p, x);
    var q := Parse(p, x);
    BlanksParse(q, b);
    InComment(Next(q, SEMICOLON), comment[1..]);
    ParseConcat(p, x, comment);
    ParseConcat(p, x, b);
    ParseConcat(p, x + comment, y);
    ParseConcat(p, x + b, y);
  }

  /** A comment that does not end yet is as good as its semicolon. */
  lemma CutComment(x: Text, comment: Text)
    requires CleanMode(Out, x) == Some(Out)
    requires comment != [] && comment[0] == SEMICOLON && NEWLINE !in comment
    ensures Parse(NOTHING, x + comment) == Parse(NOTHING, x + [SEMICOLON])
  {
    var p := NOTHING;
    CleanModeIsMode(p, x);
    InComment(Next(Parse(p, x), SEMICOLON), comment[1..]);
    ParseConcat(p, x, comment);
    ParseConcat(p, x, [SEMICOLON]);
  }

  /** A blank before a comment makes no difference. */
  lemma BlankBeforeComment(x: Text, b: Byte)
    requires CleanMode(Out, x + [b]) == Some(Out) && IsBlank(b)
    ensures CleanMode(Out, x) == Some(Out)
    ensures Parse(NOTHING, x + [b] + [SEMICOLON]) == Parse(NOTHING, x + [SEMICOLON])
  {
    var p := NOTHING;
    CleanConcat(Out, x, [b]);
    CleanModeIsPossible(Out, x);
    CleanModeIsMode(p, x);
    ParseConcat(p, x, [b]);
    ParseConcat(p, x + [b], [SEMICOLON]);
    ParseConcat(p, x, [SEMICOLON]);
  }

  lemma {:induction false} CleanModeIsPossible(m: Mode, s: Text)
    requires CleanMode(m, s) != None && m != Comment && (m.Quoted? ==> IsQuote(m.q))
    ensures var n := CleanMode(m, s).value; n != Comment && (n.Quoted? ==> IsQuote(n.q))
    decreases |s|
  {
    if s != [] { CleanModeIsPossible(NextMode(m, s[0]), s[1..]); }
  }

  // ----- complete lines -----

  lemma TidyIsParse(s: Text)
    requires NEWLINE !in s
    ensures Tidy(s) == Trim(Parse(NOTHING, s).last.text)
  {
    ParseWithinLine(NOTHING, s);
    assert Parse(NOTHING, s).last.text == Squeeze(Out, false, Cut(Out, s));
  }

  /** Trimming first makes no difference to a line without comments. */
  lemma {:induction false} TidyTrimmed(s: Text)
    requires NEWLINE !in s && IsClean(s)
    ensures Tidy(Trim(s)) == Tidy(s) && IsClean(Trim(s))
    decreases |s|
  {
    if s != [] && s[|s| - 1] == SPACE {
      var t, p := s[..|s| - 1], NOTHING;
      assert s == t + [SPACE];
      CleanConcat(Out, t, [SPACE]);
      ParseConcat(p, t, [SPACE]);
      CleanModeIsMode(p, t);
      TidyIsParse(s);
      TidyIsParse(t);
      var l := Parse(p, t).last;
      SpaceAtEnd(l);
      TidyTrimmed(t);
    }
  }

  lemma SpaceAtEnd(l: Line)
    requires l.mode != Comment
    ensures Trim(Step(l, SPACE).text) == Trim(l.text)
  {
    if l.mode != Out {
      var s := l.text + if l.blank then [SPACE] else [];
      assert (s + [SPACE])[..|s|] == s && (!l.blank ==> s == l.text);
      assert (l.text + [SPACE])[..|l.text|] == l.text;
    }
  }

  /** The first line of a longer text, when lines have been found before it. */
  lemma ParseFirstLine(lines: seq<Text>, s: Text, rest: Text)
    requires NEWLINE !in s
    ensures var nul := HasQuotedNul(Out, s);
            Parse(Found(lines), s + [NEWLINE] + rest) == Parse(Parsed(lines + [Tidy(s)], START, nul), rest)
  {
    var p := Found(lines);
    ParseFindsNul(p, s);
    ParseConcat(p, s + [NEWLINE], rest);
    ParseConcat(p, s, [NEWLINE]);
    ParseAfter(p, s);
    ParseWithinLine(NOTHING, s);
    TidyIsParse(s);
    assert lines + [] == lines;
  }

  // ----- the same number of lines -----

  function Count(s: Text): nat {
    if s == [] then 0 else (if s[0] == NEWLINE then 1 else 0) + Count(s[1..])
  }

  lemma {:induction false} ParseCounts(p: Parsed, s: Text)
    ensures |Parse(p, s).lines| == |p.lines| + Count(s)
    decreases |s|
  {
    if s != [] { ParseCounts(Next(p, s[0]), s[1..]); }
  }

  lemma {:induction false} SameCount(s: Text, t: Text)
    requires |s| == |t| && forall j :: 0 <= j < |s| ==> (s[j] == NEWLINE <==> t[j] == NEWLINE)
    ensures Count(s) == Count(t)
    decreases |s|
  {
    if s != [] { SameCount(s[1..], t[1..]); }
  }

  lemma ParseWhole(p: Parsed, s: Text)
    requires s != [] && s[|s| - 1] == NEWLINE
    ensures Parse(p, s).last == START
  {
    var init := s[..|s| - 1];
    assert s == init + [NEWLINE];
    ParseConcat(p, init, [NEWLINE]);
  }

  /** If two texts are the same to the parser, so is what follows corresponding newlines. */
  lemma SuffixSame(s: Text, t: Text, q: nat)
    requires 0 < q <= |s| && q <= |t| && s[q - 1] == t[q - 1] == NEWLINE
    requires forall j :: 0 <= j < q ==> (s[j] == NEWLINE <==> t[j] == NEWLINE)
    requires Parse(NOTHING, s) == Parse(NOTHING, t) && !Parse(NOTHING, s).quotedNul
    ensures Parse(NOTHING, s[q..]) == Parse(NOTHING, t[q..])
  {
    var none := NOTHING;
    var a, b := Parse(none, s[..q]), Parse(none, t[..q]);
    assert s == s[..q] + s[q..] && t == t[..q] + t[q..];
    ParseConcat(none, s[..q], s[q..]);
    ParseConcat(none, t[..q], t[q..]);
    ParseWhole(none, s[..q]);
    ParseWhole(none, t[..q]);
    ParseCounts(none, s[..q]);
    ParseCounts(none, t[..q]);
    SameCount(s[..q], t[..q]);
    ParseAfter(a, s[q..]);
    ParseAfter(b, t[q..]);
    Cancel(a.lines, Parse(none, s[q..]).lines, b.lines, Parse(none, t[q..]).lines);
  }

  lemma Cancel<T>(a: seq<T>, x: seq<T>, b: seq<T>, y: seq<T>)
    requires a + x == b + y && (|a| == |b| || x == y)
    ensures a == b && x == y
  {
    assert |a| == |b|;
    assert a == (a + x)[..|a|] && x == (a + x)[|a|..];
    assert b == (b + y)[..|b|] && y == (b + y)[|b|..];
  }

  lemma Associates<T>(a: seq<T>, b: seq<T>, c: seq<T>)
    ensures a + b + c == a + (b + c)
  {
  }

  lemma {:induction false} LinesSplit(s: Text, t: Text)
    requires EndsInNewline(s)
    ensures Lines(s + t) == Lines(s) + Lines(t)
    decreases |s|
  {
    if s == [] {
      assert [] + t == t;
    } else {
      hide Lines, EndsInNewline;
      var line, rest := SplitFirst(s);
      Associates(line + [NEWLINE], rest, t);
      FirstLine(line, rest);
      FirstLine(line, rest + t);
      LinesSplit(rest, t);
      Associates([line], Lines(rest), Lines(t));
    }
  }

  lemma {:induction false} TidyAllSplit(a: seq<Text>, b: seq<Text>)
    ensures TidyAll(a + b) == TidyAll(a) + TidyAll(b)
    decreases |a|
  {
    if a == [] {
      assert [] + b == b;
    } else {
      assert (a + b)[1..] == a[1..] + b;
      TidyAllSplit(a[1..], b);
    }
  }

  // ----- tidy lines -----

  /**
   * Outside quotes there is no comment, no blank but the space, and no two
   * spaces in a row; blank says whether there is one in front.
   */
  predicate Spaced(m: Mode, blank: bool, s: Text)
    decreases |s|
  {
    s == [] ||
    (&& (m == Out ==> s[0] != SEMICOLON && (IsBlank(s[0]) ==> s[0] == SPACE && !blank))
     && Spaced(NextMode(m, s[0]), m == Out && s[0] == SPACE, s[1..]))
  }

  lemma {:induction false} SpacedNeedsNoCut(m: Mode, blank: bool, s: Text)
    requires Spaced(m, blank, s) && m != Comment && NEWLINE !in s
    ensures Cut(m, s) == s
    decreases |s|
  {
    if s != [] { SpacedNeedsNoCut(NextMode(m, s[0]), m == Out && s[0] == SPACE, s[1..]); }
  }

  lemma {:induction false} SpacedIsSqueezed(m: Mode, blank: bool, s: Text)
    requires Spaced(m, blank, s) && (blank ==> m == Out) && (s != [] ==> s[|s| - 1] != SPACE)
    ensures Squeeze(m, blank, s) == (if blank && s != [] then [SPACE] else []) + s
    decreases |s|
  {
    if s != [] {
      var space := m == Out && s[0] == SPACE;
      SpacedIsSqueezed(NextMode(m, s[0]), space, s[1..]);
      assert [s[0]] + s[1..] == s;
    }
  }

  /** Such a line is tidy, unless it ends in a space, whatever there is in its quotes. */
  lemma SpacedIsTidy(s: Text)
    requires NEWLINE !in s && Spaced(Out, false, s) && (s != [] ==> s[|s| - 1] != SPACE)
    ensures Tidy(s) == s
  {
    SpacedNeedsNoCut(Out, false, s);
    SpacedIsSqueezed(Out, false, s);
    assert [] + s == s;
  }

  /** A comment does not show. */
  lemma TidyWithoutComment(s: Text, comment: Text)
    requires NEWLINE !in s && NEWLINE !in comment && Parse(NOTHING, s).last.mode == Out
    ensures Tidy(s + [SEMICOLON] + comment) == Tidy(s)
  {
    var p := Parse(NOTHING, s);
    TidyIsParse(s);
    TidyIsParse(s + [SEMICOLON] + comment);
    ParseConcat(NOTHING, s + [SEMICOLON], comment);
    ParseConcat(NOTHING, s, [SEMICOLON]);
    assert Parse(p, [SEMICOLON]) == Parse(Next(p, SEMICOLON), []);
    InComment(Next(p, SEMICOLON), comment);
  }
}
