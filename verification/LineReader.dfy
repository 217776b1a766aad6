/**
 * The line reader of do_assembly: a 512-byte buffer that is filled by read()
 * calls of any size, cleaned up in place, and taken apart into lines.
 */
module LineReader {

  import opened Common
  import opened LineText
  import opened LineScan

  const BUFFER_SIZE := 512
  const MAX_SIZE := 256

  // ----- short lines -----

  ghost predicate NewlineFrom(s: Text, i: int)
    requires 0 <= i <= |s| - MAX_SIZE
  {
    exists k :: i <= k < i + MAX_SIZE && s[k] == NEWLINE
  }

  /** Any MAX_SIZE bytes in a row have a newline among them. */
  ghost predicate ShortLines(s: Text) {
    forall i :: 0 <= i <= |s| - MAX_SIZE ==> NewlineFrom(s, i)
  }

  /** Which is so if there are fewer than MAX_SIZE bytes in each line. */
  lemma {:induction false} LinesAreShort(s: Text)
    requires EndsInNewline(s) && forall line :: line in Lines(s) ==> |line| < MAX_SIZE
    ensures ShortLines(s)
    decreases |s|
  {
    if s != [] {
      hide Lines;
      var line, rest := SplitFirst(s);
      FirstLine(line, rest);
      assert line in [line] + Lines(rest) && forall l :: l in Lines(rest) ==> l in [line] + Lines(rest);
      LinesAreShort(rest);
      var n := |line| + 1;
      assert s[n - 1] == NEWLINE && s[n..] == rest;
      forall i | 0 <= i <= |s| - MAX_SIZE ensures NewlineFrom(s, i) {
        if i >= n {
          assert NewlineFrom(rest, i - n);
          var k :| i - n <= k < i - n + MAX_SIZE && rest[k] == NEWLINE;
          assert s[n + k] == NEWLINE;
        }
      }
    }
  }

  lemma ShortStart(s: Text, k: nat)
    requires ShortLines(s) && k <= |s| && NEWLINE !in s[..k]
    ensures k < MAX_SIZE
  {
    assert forall i :: 0 <= i < k ==> s[..k][i] == s[i];
    assert |s| >= MAX_SIZE ==> NewlineFrom(s, 0);
  }

  lemma ShortRest(s: Text, n: nat)
    requires ShortLines(s) && n <= |s|
    ensures ShortLines(s[n..])
  {
    forall i | 0 <= i <= |s[n..]| - MAX_SIZE ensures NewlineFrom(s[n..], i) {
      assert NewlineFrom(s, n + i);
      var k :| n + i <= k < n + i + MAX_SIZE && s[k] == NEWLINE;
      assert s[n..][k - n] == NEWLINE;
    }
  }

  lemma ShortWithNewline(s: Text)
    requires ShortLines(s)
    ensures ShortLines(s + [NEWLINE])
  {
    var t := s + [NEWLINE];
    forall i | 0 <= i <= |t| - MAX_SIZE ensures NewlineFrom(t, i) {
      if i <= |s| - MAX_SIZE {
        assert NewlineFrom(s, i);
        var k :| i <= k < i + MAX_SIZE && s[k] == NEWLINE;
        assert t[k] == NEWLINE;
      } else {
        assert t[|s|] == NEWLINE;
      }
    }
  }

  /** A scan keeps the newlines where they are, and cuts off none. */
  lemma ShortScanned(before: Text, after: Text, rest: Text)
    requires ShortLines(before + rest) && |after| <= |before|
    requires forall j :: 0 <= j < |after| ==> (after[j] == NEWLINE <==> before[j] == NEWLINE)
    requires forall j :: |after| <= j < |before| ==> before[j] != NEWLINE
    ensures ShortLines(after + rest)
  {
    var s, t, cut := before + rest, after + rest, |before| - |after|;
    forall i | 0 <= i <= |t| - MAX_SIZE ensures NewlineFrom(t, i) {
      var j := if i < |after| then i else i + cut;
      assert NewlineFrom(s, j);
      var k :| j <= k < j + MAX_SIZE && s[k] == NEWLINE;
      assert t[if k < |after| then k else k - cut] == NEWLINE;
    }
  }

  // ----- the reader -----

  datatype Result = Got(line: Text) | End | TooLong

  datatype Filled = MoreText | NoMoreText | NoRoom

  function Sentinel(extra: bool): Text {
    if extra then [NEWLINE] else []
  }

  /** Lines found, and a buffer that is not taken apart yet, stand for the text that has been read. */
  ghost predicate StandsFor(lines: seq<Text>, seg: Text, text: Text) {
    Parse(Found(lines), seg) == Parse(NOTHING, text)
  }

  lemma StandsForMore(lines: seq<Text>, seg: Text, text: Text, more: Text)
    requires StandsFor(lines, seg, text)
    ensures StandsFor(lines, seg + more, text + more)
  {
    ParseConcat(Found(lines), seg, more);
    ParseConcat(NOTHING, text, more);
  }

  lemma StandsForSame(lines: seq<Text>, seg: Text, text: Text, same: Text)
    requires StandsFor(lines, seg, text) && SameParse(same, seg)
    ensures StandsFor(lines, same, text)
  {
    ParseAfter(Found(lines), seg);
    ParseAfter(Found(lines), same);
  }

  lemma StandsForRest(lines: seq<Text>, line: Text, rest: Text, text: Text)
    requires StandsFor(lines, line + [NEWLINE] + rest, text) && NEWLINE !in line && IsClean(line)
    ensures StandsFor(lines + [Tidy(line)], rest, text)
  {
    ParseFirstLine(lines, line, rest);
    ParseFindsNul(NOTHING, line);
    CleanModeIsMode(NOTHING, line);
  }

  /** Lines are found whether or not there is a quoted NUL. */
  lemma NulKept(lines: seq<Text>, seg: Text, text: Text)
    requires StandsFor(lines, seg, text)
    ensures Parse(NOTHING, text).quotedNul == Parse(NOTHING, seg).quotedNul
  {
    ParseAfter(Found(lines), seg);
  }

  /** A quoted NUL stays one when there is more text. */
  lemma NulStays(text: Text, more: Text)
    requires Parse(NOTHING, text).quotedNul
    ensures Parse(NOTHING, text + more).quotedNul
  {
    ParseConcat(NOTHING, text, more);
    ParseFindsNul(Parse(NOTHING, text), more);
  }

  /** Neither does the newline that may be added make one. */
  lemma NulInFile(file: Text, extra: bool)
    ensures Parse(NOTHING, file + Sentinel(extra)).quotedNul <==> HasQuotedNul(Out, file)
  {
    ParseConcat(NOTHING, file, Sentinel(extra));
    ParseFindsNul(NOTHING, file);
    ParseFindsNul(Parse(NOTHING, file), Sentinel(extra));
  }

  /** At the end of the file all of its lines have been found. */
  lemma StandsForAll(lines: seq<Text>, seg: Text, text: Text)
    requires StandsFor(lines, seg, text) && NEWLINE !in seg && EndsInNewline(text)
    ensures lines == TidyAll(Lines(text))
  {
    ParseIsTidyLines(text);
    ParseWithinLine(Found(lines), seg);
  }

  lemma TrimStep(s: Text)
    ensures Trim(s) == if s != [] && s[|s| - 1] == SPACE then Trim(s[..|s| - 1]) else s
  {
  }

  /** No comment, no blank but space outside quotes, no trailing space. */
  ghost predicate GoodLine(line: Text) {
    NEWLINE !in line && IsClean(line) && Cut(Out, line) == line && Trim(line) == line
  }

  lemma Trimmed(line: Text)
    requires NEWLINE !in line && IsClean(line)
    ensures GoodLine(Trim(line)) && Tidy(Trim(line)) == Tidy(line)
  {
    TidyTrimmed(line);
    CleanNeedsNoCut(Out, Trim(line));
  }

  lemma CleanStart(whole: Text, partial: Text)
    requires CleanParts(whole, partial)
    ensures CleanMode(Out, whole) == Some(Out)
  {
  }

  lemma CleanSplit(line: Text, tail: Text)
    requires CleanMode(Out, line + ([NEWLINE] + tail)) == Some(Out)
    ensures IsClean(line) && CleanMode(Out, tail) == Some(Out)
  {
    CleanConcat(Out, line, [NEWLINE] + tail);
    assert ([NEWLINE] + tail)[1..] == tail;
  }

  /** Clean whole lines, and then a line that is not complete. */
  ghost predicate CleanParts(whole: Text, partial: Text) {
    CleanMode(Out, whole) == Some(Out) && WholeLines(whole) && NEWLINE !in partial
  }

  /** The buffered text `tail` stands for what follows position t of the text read, where a line starts. */
  ghost predicate Behind(tail: Text, text: Text, t: int) {
    0 < t <= |text| && text[t - 1] == NEWLINE && SameParse(tail, text[t..])
  }

  /** Every line that starts in seg behind a newline is in its place in a text up to `end`. */
  ghost predicate StartsInPlace(seg: Text, text: Text, end: int) {
    forall k :: 0 <= k < |seg| && seg[k] == NEWLINE ==> Behind(seg[k + 1..], text, end - (|seg| - (k + 1)))
  }

  lemma InPlaceRest(line: Text, rest: Text, text: Text, end: int)
    requires StartsInPlace(line + [NEWLINE] + rest, text, end)
    ensures Behind(rest, text, end - |rest|) && StartsInPlace(rest, text, end)
  {
    hide Behind;
    var seg, n := line + [NEWLINE] + rest, |line|;
    assert seg[n] == NEWLINE && seg[n + 1..] == rest;
    forall k | 0 <= k < |rest| && rest[k] == NEWLINE
      ensures Behind(rest[k + 1..], text, end - (|rest| - (k + 1)))
    {
      assert seg[n + 1 + k] == NEWLINE && seg[n + 1 + k + 1..] == rest[k + 1..];
    }
  }

  /** The lines so far are those of the text before that position. */
  lemma LinesBefore(lines: seq<Text>, tail: Text, text: Text, t: int)
    requires StandsFor(lines, tail, text) && Behind(tail, text, t)
    ensures lines == TidyAll(Lines(text[..t]))
  {
    ParseIsTidyLines(text[..t]);
    var before := TidyAll(Lines(text[..t]));
    assert text == text[..t] + text[t..];
    ParseConcat(NOTHING, text[..t], text[t..]);
    ParseAfter(Parse(NOTHING, text[..t]), text[t..]);
    ParseAfter(Found(lines), tail);
    Cancel(before, Parse(NOTHING, text[t..]).lines, lines, Parse(NOTHING, tail).lines);
  }

  /** After a scan: a newline in the buffer is where it was, as many bytes from the end as in the text. */
  lemma BehindScanned(seg: Text, more: Text, had: Text, after: Text, k: nat)
    requires NEWLINE !in seg && SameParse(after, seg + more) && !Parse(NOTHING, after).quotedNul
    requires k < |after| <= |seg + more| && after[k] == NEWLINE
    requires forall j :: 0 <= j < |after| ==> (after[j] == NEWLINE <==> (seg + more)[j] == NEWLINE)
    ensures Behind(after[k + 1..], had + more, |had| + (k + 1 - |seg|))
  {
    hide Parse, SameParse;
    assert forall i :: 0 <= i < |seg| ==> (seg + more)[i] == seg[i];
    SuffixParse(after, seg + more, k + 1);
    Suffixes(seg, had, more, k + 1 - |seg|);
  }

  lemma SuffixParse(s: Text, t: Text, q: nat)
    requires 0 < q <= |s| && q <= |t| && s[q - 1] == NEWLINE && SameParse(s, t) && !Parse(NOTHING, s).quotedNul
    requires forall j :: 0 <= j < |s| && j < |t| ==> (s[j] == NEWLINE <==> t[j] == NEWLINE)
    ensures SameParse(s[q..], t[q..])
  {
    SuffixSame(s, t, q);
  }

  lemma Suffixes(a: Text, b: Text, more: Text, n: nat)
    requires 0 < n <= |more|
    ensures (a + more)[|a| + n..] == (b + more)[|b| + n..]
    ensures (a + more)[|a| + n - 1] == (b + more)[|b| + n - 1]
  {
  }

  /**
   * Position s of the file is behind the lines so far; but if the newline that
   * was added at the end of the file is still to come, it is one character
   * before that, on the newline that ends the last of these lines.
   */
  ghost predicate ResumesBehind(lines: seq<Text>, file: Text, s: int, extra: bool, more: bool) {
    if extra && more then
      0 <= s < |file| && file[s] == NEWLINE && lines == TidyAll(Lines(file[..s + 1]))
    else if extra then
      s == |file| && lines == TidyAll(Lines(file + [NEWLINE]))
    else
      0 < s <= |file| && file[s - 1] == NEWLINE && lines == TidyAll(Lines(file[..s]))
  }

  /**
   * Reading on from the saved position gives exactly the lines that are left,
   * except that an empty line comes first if and only if the added newline is
   * still in the buffer: then all lines up to the end of the file are counted
   * one too high.
   */
  lemma ReadingOn(lines: seq<Text>, file: Text, s: nat, extra: bool)
    requires EndsInNewline(file) && ResumesBehind(lines, file, s, extra, true)
    ensures s <= |file|
    ensures var rest := TidyAll(Lines(file[s..]));
            if extra then rest != [] && rest[0] == [] && TidyAll(Lines(file)) == lines + rest[1..]
            else TidyAll(Lines(file)) == lines + rest
  {
    hide Tidy, Lines, TidyAll;
    LinesAt(file, if extra then s + 1 else s);
    if extra { OneBack(file, s); }
  }

  lemma OneLetter(c: Byte)
    requires c == 120 || c == 121
    ensures Tidy([c]) == [c] && Lines([]) == []
  {
    assert Cut(Out, [c]) == [c] && Squeeze(Out, false, [c]) == [c];
  }

  lemma LinesAt(file: Text, t: nat)
    requires 0 < t <= |file| && file[t - 1] == NEWLINE
    ensures TidyAll(Lines(file)) == TidyAll(Lines(file[..t])) + TidyAll(Lines(file[t..]))
  {
    hide Tidy, Lines, TidyAll;
    assert file == file[..t] + file[t..];
    LinesSplit(file[..t], file[t..]);
    TidyAllSplit(Lines(file[..t]), Lines(file[t..]));
  }

  lemma OneBack(file: Text, s: nat)
    requires s < |file| && file[s] == NEWLINE
    ensures TidyAll(Lines(file[s..])) == [[]] + TidyAll(Lines(file[s + 1..]))
  {
    hide Tidy, Lines, TidyAll;
    var rest := file[s + 1..];
    assert file[s..] == [NEWLINE] + rest == [] + [NEWLINE] + rest;
    FirstLine([], rest);
    TidyAllSplit([[]], Lines(rest));
    EmptyIsTidy();
  }

  lemma EmptyIsTidy()
    ensures TidyAll([[]]) == [[]] && Tidy([]) == []
  {
    assert Tidy([]) == [];
  }

  class Reader {
    const buf: array<Byte>
    var rend: nat           // line_rend
    var linep: nat          // the line to be looked at next
    var nul: bool           // a quoted NUL has been reported
    var discarded: nat      // discarded_after_read

    // read() and the file it reads from.
    const file: Text
    var offset: nat

    ghost var lines: seq<Text>  // the lines so far, tidied up
    ghost var extra: bool       // whether a newline was added at the end of the file
    ghost var clean: nat        // where the partial line at the end of the buffer starts

    ghost predicate Clean()
      reads this`linep, this`rend, this`clean, buf
    {
      linep <= clean <= rend <= buf.Length && CleanParts(buf[linep..clean], buf[clean..rend])
    }

    ghost predicate Faithful()
      reads this`linep, this`rend, this`lines, this`offset, this`extra, buf
    {
      && linep <= rend <= buf.Length && offset <= |file|
      && StandsFor(lines, buf[linep..rend], TextRead())
    }

    /** The text that has been read, with the newline that may have been added. */
    ghost function TextRead(): Text
      requires offset <= |file|
      reads this`offset, this`extra
    {
      file[..offset] + Sentinel(extra)
    }

    /** Every line that starts in the buffer behind a newline is in its place. */
    ghost predicate Aligned()
      reads this`linep, this`rend, this`offset, this`extra, this`discarded, buf
    {
      && linep <= rend <= buf.Length && offset <= |file|
      && StartsInPlace(buf[linep..rend], TextRead(), |TextRead()| - discarded)
    }

    /** A quoted NUL has been reported if and only if there was one. */
    ghost predicate Justified()
      reads this`offset, this`extra, this`nul
    {
      offset <= |file| && (nul <==> Parse(NOTHING, TextRead()).quotedNul)
    }

    /** What is in the buffer and what is left of the file have short lines only. */
    ghost predicate Short()
      reads this`linep, this`rend, this`offset, buf
    {
      linep <= rend <= buf.Length && offset <= |file| && ShortLines(buf[linep..rend] + file[offset..])
    }

    ghost predicate Valid()
      reads this, buf
    {
      && (nul || Aligned()) && (extra ==> discarded == 0)
      && rend <= offset + |Sentinel(extra)| && (offset == 0 || extra || offset >= BUFFER_SIZE)
      && linep <= rend <= buf.Length == BUFFER_SIZE && offset <= |file| && (extra ==> offset == |file|)
      && Clean() && (nul || Faithful())
    }

    constructor (file: Text)
      ensures Valid() && Justified() && fresh(buf) && this.file == file && lines == [] && !nul
      ensures ShortLines(file) ==> Short()
    {
      buf := new Byte[BUFFER_SIZE](_ => 0);
      this.file := file;
      rend, linep, nul, discarded, offset := 0, 0, false, 0, 0;
      lines, extra, clean := [], false, 0;
      new;
      assert buf[0..0] == [] && file[..0] == [] && [] + file[0..] == file;
    }

    /** read(): some of the bytes that are left, and none only at the end of the file. */
    method Read(at: nat, want: nat) returns (got: nat)
      requires 0 < want && at + want <= buf.Length && offset <= |file|
      modifies buf, this`offset
      ensures got <= want && offset == old(offset) + got <= |file|
      ensures got == 0 <==> old(offset) == |file|
      ensures buf[..at + got] == old(buf[..at]) + file[old(offset)..offset]
    {
      if offset == |file| { return 0; }
      got :| 1 <= got <= want && got <= |file| - offset;
      forall i | 0 <= i < got { buf[at + i] := file[offset + i]; }
      offset := offset + got;
    }

    /** Reads until the buffer is full or the file ends, and adds a newline in the latter case. */
    method Fill() returns (f: Filled)
      requires rend <= buf.Length && offset <= |file| && (extra ==> offset == |file|)
      modifies buf, this`offset, this`rend, this`extra, this`discarded
      ensures discarded == 0
      ensures f != MoreText ==> rend == old(rend) && offset == old(offset) && extra == old(extra)
      ensures f == NoRoom <==> old(rend) == buf.Length
      ensures f == NoMoreText ==> offset == |file|
      ensures f == MoreText ==> old(rend) < rend <= buf.Length && old(offset) < offset <= |file|
      ensures f == MoreText ==> !old(extra) && (extra ==> offset == |file|) && (extra || rend == buf.Length)
      ensures f == MoreText ==> buf[..rend] == old(buf[..rend]) + file[old(offset)..offset] + Sentinel(extra)
      ensures f != MoreText ==> buf[..rend] == old(buf[..rend])
    {
      discarded := 0;
      if buf.Length - rend <= 0 { return NoRoom; }
      ghost var start, from, before := rend, offset, buf[..rend];
      var p := rend;
      while true
        invariant start == p <= rend < buf.Length && from <= offset <= |file|
        invariant extra == old(extra) && discarded == 0 && (rend == p <==> offset == from)
        invariant buf[..rend] == before + file[from..offset]
        decreases |file| - offset
      {
        ghost var at := offset;
        var got := Read(rend, buf.Length - rend);
        assert file[from..offset] == file[from..at] + file[at..offset];
        assert before + file[from..at] + file[at..offset] == before + (file[from..at] + file[at..offset]);
        rend := rend + got;
        if got == 0 {
          if p == rend { return NoMoreText; }
          buf[rend] := NEWLINE;
          rend := rend + 1;
          extra := true;
          return MoreText;
        }
        if rend == buf.Length { return MoreText; }
      }
    }

    method ShiftDown()
      requires linep <= rend <= buf.Length
      modifies buf
      ensures buf[..rend - linep] == old(buf[linep..rend])
    {
      ghost var seg := buf[linep..rend];
      var liner, p := 0, linep;
      while p != rend
        invariant p == linep + liner && p <= rend == linep + |seg|
        invariant forall i :: 0 <= i < liner ==> buf[i] == seg[i]
        invariant forall i :: liner <= i < |seg| ==> buf[linep + i] == seg[i]
        decreases rend - p
      {
        buf[liner] := buf[p];
        liner, p := liner + 1, p + 1;
      }
    }

    lemma Slices(at: nat, k: nat)
      requires at + k <= rend <= buf.Length
      ensures buf[at..at + k] == buf[at..rend][..k] && buf[at + k..rend] == buf[at..rend][k..]
    {
    }

    /** The rest of the buffer is moved to its beginning. */
    method MoveToFront()
      requires Valid()
      modifies buf, this`linep, this`rend, this`clean
      ensures Valid() && linep == 0 && rend == old(rend - linep)
      ensures buf[linep..rend] == old(buf[linep..rend])
      ensures old(Short()) ==> Short()
    {
      hide CleanParts, StandsFor, Behind, StartsInPlace, ShortLines;
      ghost var k: nat := clean - linep;
      Slices(linep, k);
      ShiftDown();
      rend, clean, linep := rend - linep, k, 0;
      Slices(0, k);
      assert buf[0..rend] == buf[..rend];
    }

    method FindNewline() returns (p: nat)
      requires linep <= rend <= buf.Length
      ensures linep <= p <= rend && NEWLINE !in buf[linep..p] && (p < rend ==> buf[p] == NEWLINE)
    {
      p := linep;
      while p != rend && buf[p] != NEWLINE
        invariant linep <= p <= rend && forall i :: linep <= i < p ==> buf[i] != NEWLINE
        decreases rend - p
      {
        p := p + 1;
      }
    }

    /** Without the spaces before p. */
    method TrimSpaces(p: nat) returns (e: nat)
      requires linep <= p <= buf.Length
      ensures linep <= e <= p && buf[linep..e] == Trim(buf[linep..p])
    {
      hide Trim;
      e := p;
      ghost var line := buf[linep..p];
      assert line[..p - linep] == line;
      while e != linep && buf[e - 1] == SPACE
        invariant linep <= e <= p && Trim(line[..e - linep]) == Trim(line)
        decreases e
      {
        TrimStep(line[..e - linep]);
        assert line[..e - linep][..e - linep - 1] == line[..e - 1 - linep];
        e := e - 1;
      }
      TrimStep(line[..e - linep]);
      assert buf[linep..e] == line[..e - linep];
    }

    lemma WasFaithful()
      requires Valid()
      ensures !nul ==> StandsFor(lines, buf[linep..rend], TextRead())
      ensures !nul ==> StartsInPlace(buf[linep..rend], TextRead(), |TextRead()| - discarded)
      ensures linep <= clean <= rend <= buf.Length && CleanParts(buf[linep..clean], buf[clean..rend])
    {
    }

    lemma SplitAt(p: nat, end: nat)
      requires linep <= p < end <= buf.Length && buf[p] == NEWLINE
      ensures buf[linep..end] == buf[linep..p] + [NEWLINE] + buf[p + 1..end]
    {
    }

    lemma BeforeClean(p: nat)
      requires linep <= clean <= rend <= buf.Length && CleanParts(buf[linep..clean], buf[clean..rend])
      requires linep <= p < rend && buf[p] == NEWLINE
      ensures p < clean
      ensures WholeLines(buf[p + 1..clean])
    {
      assert forall i :: clean <= i < rend ==> buf[i] == buf[clean..rend][i - clean];
      assert p + 1 < clean ==> buf[p + 1..clean][clean - p - 2] == buf[linep..clean][clean - linep - 1];
    }

    /** What is known about the buffer before and after the newline at p. */
    lemma AtNewline(p: nat)
      requires Valid() && linep <= p < rend && buf[p] == NEWLINE && NEWLINE !in buf[linep..p]
      ensures p < clean && IsClean(buf[linep..p])
      ensures CleanMode(Out, buf[p + 1..clean]) == Some(Out) && WholeLines(buf[p + 1..clean])
      ensures !nul ==> StandsFor(lines + [Tidy(buf[linep..p])], buf[p + 1..rend], TextRead())
      ensures !nul ==> Behind(buf[p + 1..rend], TextRead(), |TextRead()| - discarded - (rend - (p + 1)))
      ensures !nul ==> StartsInPlace(buf[p + 1..rend], TextRead(), |TextRead()| - discarded)
    {
      hide CleanMode, StandsFor, Tidy, IsClean, Behind, StartsInPlace, WholeLines, Clean, Faithful, Aligned, CleanParts;
      WasFaithful();
      BeforeClean(p);
      CleanStart(buf[linep..clean], buf[clean..rend]);
      var line, tail, rest := buf[linep..p], buf[p + 1..clean], buf[p + 1..rend];
      SplitAt(p, clean);
      SplitAt(p, rend);
      assert line + [NEWLINE] + tail == line + ([NEWLINE] + tail);
      CleanSplit(line, tail);
      if !nul {
        StandsForRest(lines, line, rest, TextRead());
        InPlaceRest(line, rest, TextRead(), |TextRead()| - discarded);
      }
    }

    /** A line among short ones. */
    lemma ShortLine(p: nat)
      requires linep <= p <= rend && Short() && NEWLINE !in buf[linep..p]
      ensures p - linep < MAX_SIZE
      ensures ShortLines(buf[linep..rend] + file[offset..])
      ensures p < rend ==> ShortLines(buf[p + 1..rend] + file[offset..])
    {
      hide ShortLines;
      var s, n := buf[linep..rend] + file[offset..], p - linep;
      assert s[..n] == buf[linep..p];
      ShortStart(s, n);
      if p < rend {
        assert s[n + 1..] == buf[p + 1..rend] + file[offset..];
        ShortRest(s, n + 1);
      }
    }

    /** The line that ends at the newline at p is taken from the buffer, without trailing spaces. */
    method TakeLine(p: nat) returns (r: Result)
      requires Valid() && linep <= p < rend && buf[p] == NEWLINE && NEWLINE !in buf[linep..p]
      modifies buf, this`linep, this`lines
      ensures var line := Trim(old(buf[linep..p])); r == if |line| < MAX_SIZE then Got(line) else TooLong
      ensures r.Got? ==> Valid() && GoodLine(r.line) && linep == p + 1
      ensures r.Got? ==> buf[linep..rend] == old(buf[p + 1..rend])
      ensures r.Got? && !nul ==> lines == old(lines) + [Tidy(r.line)]
      ensures r.Got? && !nul ==> Behind(buf[linep..rend], TextRead(), |TextRead()| - discarded - (rend - linep))
    {
      hide CleanMode, StandsFor, Tidy, IsClean, Trim, WholeLines, GoodLine, Behind, StartsInPlace;
      AtNewline(p);
      ghost var line, tail, rest, partial := buf[linep..p], buf[p + 1..clean], buf[p + 1..rend], buf[clean..rend];
      Trimmed(line);
      var e := TrimSpaces(p);
      buf[e] := NUL;
      assert buf[p + 1..rend] == rest && buf[p + 1..clean] == tail && buf[clean..rend] == partial;
      assert buf[linep..e] == Trim(line);
      if e - linep >= MAX_SIZE { return TooLong; }
      r := Got(buf[linep..e]);
      lines := lines + [Tidy(line)];
      linep := p + 1;
    }

    lemma IsShort(seg: Text, left: Text)
      requires linep <= rend <= buf.Length && offset <= |file|
      requires buf[linep..rend] == seg && file[offset..] == left && ShortLines(seg + left)
      ensures Short()
    {
    }

    /** `before` is a partial line and the text that has been read after it. */
    ghost predicate Arrived(from: nat, seg: Text, before: Text)
      reads this`offset, this`extra
    {
      && from <= offset <= |file| && (extra ==> offset == |file|) && NEWLINE !in seg
      && before == seg + (file[from..offset] + Sentinel(extra))
    }

    /** What is new in the buffer is cleaned up, together with the partial line before it. */
    method CleanUp(ghost from: nat, ghost seg: Text) returns (last: nat, unfinished: bool)
      requires buf.Length == BUFFER_SIZE && linep <= rend <= buf.Length && Arrived(from, seg, buf[linep..rend])
      requires rend <= offset + |Sentinel(extra)| && (extra || rend == buf.Length) && discarded == 0
      requires nul || StandsFor(lines, seg, file[..from])
      requires nul <==> Parse(NOTHING, file[..from]).quotedNul
      modifies buf, this`rend, this`clean, this`nul, this`discarded
      ensures Valid() && Justified() && last == clean && rend <= old(rend) && (old(nul) ==> nul)
      ensures ShortLines(seg + file[from..]) ==> Short()
      ensures last <= rend && NEWLINE !in buf[last..rend]
    {
      hide StandsFor, SameParse, CleanMode, WholeLines, Short, ShortLines, Parse, Arrived, Faithful, Aligned;
      ghost var before, newlines := buf[linep..rend], Newlines(buf);
      var rend0 := rend;
      BeforeScan(from, seg, before);
      var n;
      last, rend, unfinished, n := Scan(buf, linep, rend);
      nul := nul || n;
      clean := last;
      discarded := rend0 - rend;
      AfterScan(from, seg, before, newlines, rend0);
    }

    lemma BeforeScan(from: nat, seg: Text, before: Text)
      requires linep <= rend <= buf.Length && before == buf[linep..rend] && Arrived(from, seg, before)
      requires nul || StandsFor(lines, seg, file[..from])
      requires nul <==> Parse(NOTHING, file[..from]).quotedNul
      ensures offset <= |file| && (extra ==> offset == |file| && linep < rend && rend - 1 in Newlines(buf))
      ensures nul ==> Parse(NOTHING, TextRead()).quotedNul
      ensures !nul ==> StandsFor(lines, before, TextRead())
      ensures !nul ==> Parse(NOTHING, TextRead()).quotedNul == Parse(NOTHING, before).quotedNul
    {
      hide StandsFor, Parse;
      var text, more := file[..from], file[from..offset] + Sentinel(extra);
      assert text + more == TextRead();
      if nul {
        NulStays(text, more);
      } else {
        StandsForMore(lines, seg, text, more);
        NulKept(lines, before, TextRead());
      }
      if extra { assert before[|before| - 1] == NEWLINE; }
    }

    lemma AfterScan(from: nat, seg: Text, before: Text, newlines: set<nat>, rend0: nat)
      requires linep <= rend <= rend0 <= buf.Length && Arrived(from, seg, before) && |before| == rend0 - linep
      requires newlines == Newlines(buf) && discarded == rend0 - rend
      requires forall i :: linep <= i < rend0 ==> (i in newlines <==> before[i - linep] == NEWLINE)
      requires forall i :: rend <= i < rend0 ==> i !in newlines
      requires nul || SameParse(buf[linep..rend], before)
      requires nul || (StandsFor(lines, before, TextRead()) && !Parse(NOTHING, before).quotedNul)
      ensures nul || (Faithful() && Aligned())
      ensures ShortLines(seg + file[from..]) ==> Short()
    {
      hide SameParse, Parse, StandsFor, ShortLines, Aligned;
      if !nul {
        StandsForSame(lines, before, TextRead(), buf[linep..rend]);
        ScannedAligned(from, seg, before, newlines, rend0);
      }
      if ShortLines(seg + file[from..]) { ScannedShort(from, seg, before, newlines, rend0); }
    }

    lemma ScannedShort(from: nat, seg: Text, before: Text, newlines: set<nat>, rend0: nat)
      requires linep <= rend <= rend0 <= buf.Length && Arrived(from, seg, before) && |before| == rend0 - linep
      requires newlines == Newlines(buf) && ShortLines(seg + file[from..])
      requires forall i :: linep <= i < rend0 ==> (i in newlines <==> before[i - linep] == NEWLINE)
      requires forall i :: rend <= i < rend0 ==> i !in newlines
      ensures Short()
    {
      hide ShortLines;
      var after, all := buf[linep..rend], seg + file[from..];
      assert before + file[offset..] == all + Sentinel(extra);
      assert all + [] == all;
      if extra { ShortWithNewline(all); }
      forall j | 0 <= j < |before|
        ensures j < |after| ==> (after[j] == NEWLINE <==> before[j] == NEWLINE)
        ensures j >= |after| ==> before[j] != NEWLINE
      {
        assert linep + j in newlines <==> buf[linep + j] == NEWLINE;
      }
      ShortScanned(before, after, file[offset..]);
    }

    lemma ScannedAligned(from: nat, seg: Text, before: Text, newlines: set<nat>, rend0: nat)
      requires linep <= rend <= rend0 <= buf.Length && Arrived(from, seg, before) && |before| == rend0 - linep
      requires discarded == rend0 - rend && SameParse(buf[linep..rend], before)
      requires newlines == Newlines(buf) && !Parse(NOTHING, before).quotedNul
      requires forall i :: linep <= i < rend0 ==> (i in newlines <==> before[i - linep] == NEWLINE)
      ensures Aligned()
    {
      hide SameParse, Behind, Parse;
      var after, more := buf[linep..rend], file[from..offset] + Sentinel(extra);
      assert file[..from] + more == TextRead();
      SameNul(after, before);
      forall j | 0 <= j < |after| ensures after[j] == NEWLINE <==> before[j] == NEWLINE {
        assert linep + j in newlines <==> buf[linep + j] == NEWLINE;
      }
      forall k | 0 <= k < |after| && after[k] == NEWLINE
        ensures Behind(after[k + 1..], TextRead(), |TextRead()| - discarded - (|after| - (k + 1)))
      {
        BehindScanned(seg, more, file[..from], after, k);
      }
    }

    /** How much more text there can be, a final newline included, and what is in the buffer. */
    ghost function Left(): nat
      requires offset <= |file| && linep <= rend
      reads this`offset, this`extra, this`linep, this`rend
    {
      2 * (|file| - offset) + (if extra then 0 else 1) + (rend - linep)
    }

    /** One read; a short line has room for more. */
    method FillAndCleanUp() returns (f: Filled, last: nat, unfinished: bool)
      requires Valid() && Justified() && linep == 0 && NEWLINE !in buf[linep..rend]
      modifies this`rend, this`offset, this`extra, this`clean, this`nul, this`discarded, buf
      ensures Justified() && (old(nul) ==> nul)
      ensures f != MoreText ==> offset == old(offset) && extra == old(extra) && nul == old(nul)
      ensures f == NoMoreText ==> offset == |file|
      ensures f == MoreText ==> Valid() && offset > old(offset) && Left() <= old(Left())
      ensures f == MoreText ==> linep <= last <= rend && NEWLINE !in buf[last..rend]
      ensures old(Short()) ==> f != NoRoom && (f == MoreText ==> Short())
    {
      hide Clean, Faithful, Aligned, CleanMode, StandsFor, Justified, Short, ShortLines, Arrived;
      AtEnd();
      ghost var from, seg := offset, buf[linep..rend];
      assert buf[..rend] == seg;
      if Short() { ShortLine(rend); }
      last, unfinished := 0, false;
      f := Fill();
      if f == MoreText {
        HasArrived(from, seg);
        last, unfinished := CleanUp(from, seg);
      }
    }

    /** With no newline in the buffer: fills and cleans it up, again if there is nothing but a comment. */
    method ReadMore() returns (r: Result)
      requires Valid() && Justified() && linep == 0 && NEWLINE !in buf[linep..rend]
      modifies this`rend, this`offset, this`extra, this`clean, this`nul, this`discarded, buf
      ensures Justified() && (old(nul) ==> nul)
      ensures r.Got? ==> Valid() && offset > old(offset) && Left() <= old(Left())
      ensures (extra ==> offset == |file|) && (r == End ==> offset == |file|)
      ensures old(Short()) ==> r != TooLong && (r.Got? ==> Short())
      ensures r == End && !nul && EndsInNewline(file) ==> lines == TidyAll(Lines(file + Sentinel(extra)))
    {
      hide Clean, Faithful, Aligned, CleanMode, StandsFor, Justified, Short, ShortLines;
      var again := true;
      ghost var short := Short();
      while again
        invariant Justified() && linep == 0 && (short ==> Short())
        invariant Valid() && (again ==> NEWLINE !in buf[linep..rend]) && Left() <= old(Left())
        invariant offset >= old(offset) && (!again ==> offset > old(offset)) && (old(nul) ==> nul)
        decreases |file| - offset, again
      {
        AtEnd();
        var f, last, unfinished := FillAndCleanUp();
        if f == NoRoom { return TooLong; }
        if f == NoMoreText { return End; }
        again := unfinished && last == linep;
        if short && again { ShortLine(rend); }
        if again && rend - linep >= MAX_SIZE { return TooLong; }
      }
      return Got([]);
    }

    lemma HasArrived(from: nat, seg: Text)
      requires linep == 0 && rend <= buf.Length && from <= offset <= |file| && (extra ==> offset == |file|)
      requires buf[..rend] == seg + file[from..offset] + Sentinel(extra) && NEWLINE !in seg
      ensures Arrived(from, seg, buf[linep..rend])
    {
      assert buf[linep..rend] == buf[..rend];
    }

    /** If nothing more is to be read, all lines have been found. */
    lemma AtEnd()
      requires Valid() && NEWLINE !in buf[linep..rend]
      ensures linep <= rend <= buf.Length
      ensures !nul && !extra ==> StandsFor(lines, buf[linep..rend], file[..offset])
      ensures !extra && Justified() ==> (nul <==> Parse(NOTHING, file[..offset]).quotedNul)
      ensures offset == |file| && !nul && EndsInNewline(file) ==> lines == TidyAll(Lines(file + Sentinel(extra)))
    {
      if !extra { assert TextRead() == file[..offset]; }
      if offset == |file| && !nul && EndsInNewline(file) {
        assert file[..offset] == file;
        StandsForAll(lines, buf[linep..rend], file + Sentinel(extra));
      }
    }

    /** What %INCLUDE saves as the position in the file: lseek of (linep - line_rend) - discarded_after_read. */
    function SavedPosition(): int
      reads this
    {
      offset - (rend - linep) - discarded
    }

    lemma PositionIsRight()
      requires Valid() && !nul && Behind(buf[linep..rend], TextRead(), |TextRead()| - discarded - (rend - linep))
      ensures ResumesBehind(lines, file, SavedPosition(), extra, linep < rend)
    {
      hide StandsFor, Tidy, Lines;
      var text, t := TextRead(), |TextRead()| - discarded - (rend - linep);
      LinesBefore(lines, buf[linep..rend], text, t);
      assert t <= |file| ==> text[..t] == file[..t];
      assert t == |text| ==> text[..t] == text;
      assert extra ==> file[..offset] == file;
    }

    /** The same for one among short lines, and where to go on reading. */
    method LineAt(p: nat) returns (r: Result)
      requires Valid() && linep <= p < rend && buf[p] == NEWLINE && NEWLINE !in buf[linep..p]
      modifies buf, this`linep, this`lines
      ensures var line := Trim(old(buf[linep..p])); r == if |line| < MAX_SIZE then Got(line) else TooLong
      ensures r.Got? ==> Valid() && GoodLine(r.line) && linep == p + 1
      ensures r.Got? && !nul ==> lines == old(lines) + [Tidy(r.line)]
      ensures r.Got? && !nul ==> ResumesBehind(lines, file, SavedPosition(), extra, linep < rend)
      ensures old(Short()) ==> r.Got? && Short()
    {
      hide Clean, Faithful, Aligned, Tidy, ShortLines, Trim, GoodLine, Behind, ResumesBehind, Short;
      ghost var short, rest, left := Short(), buf[p + 1..rend], file[offset..];
      if short { ShortLine(p); }
      r := TakeLine(p);
      if short { IsShort(rest, left); }
      if r.Got? && !nul { PositionIsRight(); }
    }

    lemma NulIsThere()
      requires Justified() && (extra ==> offset == |file|)
      ensures nul ==> HasQuotedNul(Out, file)
      ensures offset == |file| ==> (nul <==> HasQuotedNul(Out, file))
    {
      if offset == |file| {
        assert file[..offset] == file;
        NulInFile(file, extra);
      } else if nul {
        assert file[..offset] + [] == file[..offset] && file == file[..offset] + file[offset..];
        NulStays(file[..offset], file[offset..]);
        ParseFindsNul(NOTHING, file);
      }
    }

    /**
     * Looks for the next line, reading as much as that takes. The outcome is
     * a line, the end of the file, or the error that a line is too long.
     */
    method NextLine() returns (r: Result)
      requires Valid() && Justified()
      modifies this, buf
      ensures nul ==> HasQuotedNul(Out, file)
      ensures r == End ==> (nul <==> HasQuotedNul(Out, file))
      ensures old(Short()) ==> r != TooLong && (r.Got? ==> Short())
      ensures Justified() && (old(nul) ==> nul)
      ensures r.Got? ==> Valid() && Left() < old(Left()) && GoodLine(r.line) && |r.line| < MAX_SIZE
      ensures r.Got? && !nul ==> lines == old(lines) + [Tidy(r.line)]
      ensures r.Got? && !nul ==> ResumesBehind(lines, file, SavedPosition(), extra, linep < rend)
      ensures r.Got? ==> extra || |file| >= BUFFER_SIZE
      ensures r == End ==> lines == old(lines)
      ensures r == End && !nul && EndsInNewline(file) ==> lines == TidyAll(Lines(file + Sentinel(extra)))
    {
      hide Clean, Faithful, Aligned, CleanMode, StandsFor, GoodLine, Tidy, Behind, ResumesBehind, Justified, Short;
      hide ShortLines, HasQuotedNul, Trim;
      ghost var short := Short();
      while true
        invariant Justified() && (short ==> Short())
        invariant Valid() && lines == old(lines) && (old(nul) ==> nul) && Left() <= old(Left())
        decreases |file| - offset
      {
        var p := FindNewline();
        if p != rend {
          r := LineAt(p);
          NulIsThere();
          return;
        }
        if linep != 0 {
          if short { ShortLine(rend); }
          if rend - linep >= MAX_SIZE {
            NulIsThere();
            return TooLong;
          }
          MoveToFront();
        }
        r := ReadMore();
        if !r.Got? {
          NulIsThere();
          return;
        }
      }
    }
  }

  // ----- a whole file -----

  /** Line by line what the simple form gives, and perhaps an empty line at the end. */
  ghost predicate Delivered(got: seq<Text>, file: Text) {
    var lines := Lines(file);
    && (|got| == |lines| || (|got| == |lines| + 1 && got[|lines|] == []))
    && (forall k :: 0 <= k < |lines| ==> Tidy(got[k]) == Tidy(lines[k]))
  }

  /**
   * All lines of a file that ends in a newline, for all ways in which read()
   * can take it apart. The lines are clean, and they are the lines of the
   * file. There is an error only for a reason: a line of MAX_SIZE bytes or
   * more, or a quoted NUL, which is always reported if the end is reached.
   */
  method ReadAll(file: Text) returns (got: seq<Text>, r: Result, nul: bool)
    requires EndsInNewline(file)
    ensures forall k :: 0 <= k < |got| ==> GoodLine(got[k]) && |got[k]| < MAX_SIZE
    ensures r == End && !nul ==> Delivered(got, file)
    ensures r == End || r == TooLong
    ensures (forall line :: line in Lines(file) ==> |line| < MAX_SIZE) ==> r == End
    ensures nul ==> HasQuotedNul(Out, file)
    ensures r == End ==> (nul <==> HasQuotedNul(Out, file))
    ensures r == End && !nul ==> forall line :: line in Lines(file) ==> |Tidy(line)| < MAX_SIZE
  {
    hide GoodLine, Tidy, Lines, ResumesBehind, Delivered, HasQuotedNul, ShortLines;
    hide Reader.Clean, Reader.Faithful, Reader.Aligned, Reader.Justified, Reader.Short;
    var reader := new Reader(file);
    got := [];
    ghost var short := ShortLines(file);
    if forall line :: line in Lines(file) ==> |line| < MAX_SIZE { LinesAreShort(file); }
    while true
      invariant reader.Valid() && reader.file == file && fresh(reader) && fresh(reader.buf)
      invariant reader.Justified() && (short ==> reader.Short())
      invariant forall k :: 0 <= k < |got| ==> GoodLine(got[k]) && |got[k]| < MAX_SIZE
      invariant reader.nul || reader.lines == TidyAll(got)
      decreases reader.Left()
    {
      r := reader.NextLine();
      if !r.Got? { break; }
      TidyAllSplit(got, [r.line]);
      got := got + [r.line];
    }
    nul := reader.nul;
    if r == End && !nul {
      AllDelivered(got, file, reader.extra);
      TidyIsShort(got, file);
    }
  }

  lemma {:induction false} SqueezeShortens(m: Mode, blank: bool, s: Text)
    ensures |Squeeze(m, blank, s)| <= |s| + if blank then 1 else 0
    decreases |s|
  {
    if s != [] {
      if m == Out && IsBlank(s[0]) {
        SqueezeShortens(m, true, s[1..]);
      } else {
        SqueezeShortens(NextMode(m, s[0]), false, s[1..]);
      }
    }
  }

  lemma {:induction false} CutShortens(m: Mode, s: Text)
    ensures |Cut(m, s)| <= |s|
    decreases |s|
  {
    if s != [] { CutShortens(NextMode(m, s[0]), s[1..]); }
  }

  lemma TidyShortens(s: Text)
    ensures |Tidy(s)| <= |s|
  {
    CutShortens(Out, s);
    SqueezeShortens(Out, false, Cut(Out, s));
  }

  lemma TidyIsShort(got: seq<Text>, file: Text)
    requires Delivered(got, file) && forall k :: 0 <= k < |got| ==> |got[k]| < MAX_SIZE
    ensures forall line :: line in Lines(file) ==> |Tidy(line)| < MAX_SIZE
  {
    hide Tidy, Lines;
    forall line | line in Lines(file) ensures |Tidy(line)| < MAX_SIZE {
      var k :| 0 <= k < |Lines(file)| && Lines(file)[k] == line;
      TidyShortens(got[k]);
    }
  }

  /** A file of two lines with one letter each. */
  function TwoLines(): (file: Text)
    ensures |file| == 4
  {
    [120, NEWLINE, 121, NEWLINE]
  }

  lemma TwoGoodLines()
    ensures EndsInNewline(TwoLines()) && !HasQuotedNul(Out, TwoLines()) && ShortLines(TwoLines())
  {
    assert TwoLines()[1..][1..][1..][1..] == [];
  }

  lemma LinesOfTwo()
    ensures TidyAll(Lines(TwoLines()[..2])) == [[120]]
    ensures TidyAll(Lines(TwoLines()[2..])) == [[121]]
    ensures TidyAll(Lines(TwoLines())) == [[120], [121]]
    ensures TidyAll(Lines(TwoLines() + [NEWLINE])) == [[120], [121], []]
    ensures TidyAll(Lines(TwoLines()[1..])) == [[], [121]]
  {
    hide Tidy, Lines, TidyAll;
    var file := TwoLines();
    LetterLine(120);
    LetterLine(121);
    assert file[..2] == [120, NEWLINE] && file[2..] == [121, NEWLINE];
    LinesAt(file, 2);
    LinesSplit(file, [NEWLINE]);
    TidyAllSplit(Lines(file), Lines([NEWLINE]));
    OneNewline();
    EmptyIsTidy();
    OneBack(file, 1);
  }

  lemma LetterLine(c: Byte)
    requires c == 120 || c == 121
    ensures TidyAll(Lines([c, NEWLINE])) == [[c]]
  {
    hide Tidy, Lines;
    OneLetter(c);
    FirstLine([c], []);
    assert [c] + [NEWLINE] + [] == [c, NEWLINE] && [[c]] + [] == [[c]];
  }

  /**
   * The saved position may be one too low: after its first line a reader of
   * this file is at position 1, from where an empty line comes first.
   */
  method EmptyLineComesFirst() returns (r: Result, position: int)
    ensures r.Got? && Tidy(r.line) == [120] && position == 1
    ensures TidyAll(Lines(TwoLines()[position..])) == [[], [121]]
  {
    hide GoodLine, Tidy, Lines, TidyAll, TwoLines, HasQuotedNul, ShortLines, ResumesBehind;
    hide Reader.Clean, Reader.Faithful, Reader.Aligned, Reader.Justified, Reader.Short;
    TwoGoodLines();
    LinesOfTwo();
    var reader := new Reader(TwoLines());
    r := reader.NextLine();
    position := reader.SavedPosition();
    assert TwoLines() + [] == TwoLines();
    FirstPosition(reader.lines, position, reader.extra, reader.linep < reader.rend);
    assert reader.lines[0] == Tidy(r.line);
  }

  lemma FirstPosition(lines: seq<Text>, s: int, extra: bool, more: bool)
    requires ResumesBehind(lines, TwoLines(), s, extra, more) && |lines| == 1 && extra
    ensures s == 1 && lines == [[120]]
  {
    LinesOfTwo();
    hide Tidy, Lines;
    assert TwoLines()[..4] == TwoLines();
  }

  /** A line with nothing on it is delivered as an empty line. */
  lemma EmptyIsEmpty(line: Text)
    requires GoodLine(line) && Tidy(line) == Tidy([])
    ensures line == []
  {
    if line != [] {
      var h, c, p := line[..|line| - 1], line[|line| - 1], NOTHING;
      assert line == h + [c];
      CleanConcat(Out, h, [c]);
      CleanModeIsMode(p, h);
      ParseConcat(p, h, [c]);
      TidyIsParse(line);
      LastIsKept(Parse(p, h).last, c);
    }
  }

  lemma OneNewline()
    ensures Lines([NEWLINE]) == [[]]
  {
  }

  lemma LastIsKept(l: Line, c: Byte)
    requires l.mode != Comment && c != SPACE && (l.mode == Out ==> c != SEMICOLON && !IsBlank(c))
    ensures Trim(Step(l, c).text) != []
  {
  }

  lemma AllDelivered(got: seq<Text>, file: Text, extra: bool)
    requires EndsInNewline(file) && TidyAll(got) == TidyAll(Lines(file + Sentinel(extra)))
    requires forall k :: 0 <= k < |got| ==> GoodLine(got[k])
    ensures Delivered(got, file)
  {
    hide GoodLine, Tidy, Lines;
    var lines := Lines(file + Sentinel(extra));
    assert |got| == |lines|;
    assert forall k :: 0 <= k < |got| ==> Tidy(got[k]) == TidyAll(got)[k] == Tidy(lines[k]);
    if extra {
      LinesSplit(file, [NEWLINE]);
      OneNewline();
      EmptyIsEmpty(got[|lines| - 1]);
    } else {
      assert file + [] == file;
    }
  }
}
