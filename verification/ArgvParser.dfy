/**
 * __libc_parse_to_argv_and_argc: the command line is taken apart in place,
 * by a read pointer and a write pointer into the same buffer.
 */
module ArgvParser {

  const NUL := '\0'

  const MAX_ARGV := 512

  import opened Common

  predicate IsBlank(c: char) {
    c == ' ' || c == '\t'
  }

  // ----- the tokenizer, on the original text -----

  function Blanks(t: seq<char>, i: nat): (j: nat)
    requires i <= |t|
    ensures i <= j <= |t|
    decreases |t| - i
  {
    if i < |t| && IsBlank(t[i]) then Blanks(t, i + 1) else i
  }

  /** The number of backslashes from i on. */
  function Backslashes(t: seq<char>, i: nat): (n: nat)
    requires i <= |t|
    ensures i + n <= |t| && (forall k :: i <= k < i + n ==> t[k] == '\\') && (i + n < |t| ==> t[i + n] != '\\')
    decreases |t| - i
  {
    if i < |t| && t[i] == '\\' then 1 + Backslashes(t, i + 1) else 0
  }

  function Repeated(c: char, n: nat): (s: seq<char>)
    ensures |s| == n && forall k :: 0 <= k < n ==> s[k] == c
  {
    seq(n, _ => c)
  }

  /**
   * The rest of an argument from i on, and where it ends. Before a quotation
   * mark, 2n backslashes are n backslashes and 2n + 1 are n of them and a
   * literal quotation mark; anywhere else, backslashes are literal.
   */
  function Arg(t: seq<char>, i: nat, quote: bool): (r: (seq<char>, nat))
    requires i <= |t|
    ensures i <= r.1 <= |t|
    decreases |t| - i
  {
    if i == |t| then ([], i)
    else if t[i] == '\\' then
      var n := Backslashes(t, i);
      if i + n < |t| && t[i + n] == '"' then
        if n % 2 == 0 then Prepend(Repeated('\\', n / 2), Arg(t, i + n + 1, !quote))
        else Prepend(Repeated('\\', n / 2) + ['"'], Arg(t, i + n + 1, quote))
      else Prepend(Repeated('\\', n), Arg(t, i + n, quote))
    else if t[i] == '"' then Arg(t, i + 1, !quote)
    else if !quote && IsBlank(t[i]) then ([], i + 1)
    else Prepend([t[i]], Arg(t, i + 1, quote))
  }

  function Prepend(s: seq<char>, r: (seq<char>, nat)): (seq<char>, nat) {
    (s + r.0, r.1)
  }

  function Args(t: seq<char>, i: nat): seq<seq<char>>
    requires i <= |t|
    decreases |t| - i
  {
    var j := Blanks(t, i);
    if j == |t| then []
    else
      ArgGoesOn(t, j);
      var (arg, k) := Arg(t, j, false);
      [arg] + Args(t, k)
  }

  /** An argument uses up what it starts with. */
  lemma ArgGoesOn(t: seq<char>, i: nat)
    requires i < |t|
    ensures Arg(t, i, false).1 > i
  {
  }

  /** The string that starts at i, up to its NUL. */
  function StringAt(b: seq<char>, i: nat): seq<char>
    requires i <= |b|
    decreases |b| - i
  {
    if i == |b| || b[i] == NUL then [] else [b[i]] + StringAt(b, i + 1)
  }

  ghost predicate NoNul(t: seq<char>) {
    forall k :: 0 <= k < |t| ==> t[k] != NUL
  }

  lemma {:induction false} ArgHasNoNul(t: seq<char>, i: nat, quote: bool)
    requires i <= |t| && NoNul(t)
    ensures NoNul(Arg(t, i, quote).0)
    decreases |t| - i
  {
    if i < |t| {
      if t[i] == '\\' {
        var n := Backslashes(t, i);
        if i + n < |t| && t[i + n] == '"' {
          ArgHasNoNul(t, i + n + 1, if n % 2 == 0 then !quote else quote);
        } else {
          ArgHasNoNul(t, i + n, quote);
        }
      } else if t[i] == '"' {
        ArgHasNoNul(t, i + 1, !quote);
      } else if quote || !IsBlank(t[i]) {
        ArgHasNoNul(t, i + 1, quote);
      }
    }
  }

  lemma {:induction false} StringFound(b: seq<char>, i: nat, s: seq<char>)
    requires NoNul(s) && i + |s| < |b| && b[i..i + |s|] == s && b[i + |s|] == NUL
    ensures StringAt(b, i) == s
    decreases |s|
  {
    if s != [] {
      assert b[i] == b[i..i + |s|][0] == s[0];
      assert b[i + 1..i + 1 + |s[1..]|] == b[i..i + |s|][1..] == s[1..];
      StringFound(b, i + 1, s[1..]);
    }
  }

  // ----- in place -----

  /** The unread part of the buffer from p on is still the text and its NUL. */
  ghost predicate Unread(buf: array<char>, t: seq<char>, p: nat)
    reads buf
  {
    && p <= |t| < buf.Length
    && (forall k :: p <= k < |t| ==> buf[k] == t[k]) && buf[|t|] == NUL
  }

  /** The write pointer is at pw, and what was written is s. */
  ghost predicate Written(buf: array<char>, s: seq<char>, pw: nat)
    reads buf
  {
    pw == |s| <= buf.Length && buf[..pw] == s
  }

  method Put(buf: array<char>, ghost t: seq<char>, p: nat, ghost s: seq<char>, pw: nat, c: char) returns (pw': nat)
    requires Unread(buf, t, p) && Written(buf, s, pw) && pw < p
    modifies buf
    ensures Unread(buf, t, p) && Written(buf, s + [c], pw') && pw' == pw + 1
  {
    buf[pw] := c;
    pw' := pw + 1;
  }

  /** Half of the backslashes from p on, where p has gone over the first of an even or odd run. */
  method PutHalf(buf: array<char>, ghost t: seq<char>, i: nat, q: nat, ghost s: seq<char>, pw: nat)
      returns (p: nat, pw': nat)
    requires Unread(buf, t, q) && Written(buf, s, pw) && pw <= i < q
    modifies buf
    ensures Unread(buf, t, q) && Written(buf, s + Repeated('\\', (q - i) / 2), pw') && pw' - pw <= (q - i) / 2
    ensures p == if (q - i) % 2 == 0 then q + 1 else q
  {
    p, pw' := i + 1, pw;
    ghost var n: nat := 0;
    while p < q
      invariant Unread(buf, t, q) && Written(buf, s + Repeated('\\', n), pw') && pw' == pw + n
      invariant p == i + 1 + 2 * n && p <= q + 1
    {
      pw' := Put(buf, t, q, s + Repeated('\\', n), pw', '\\');
      p, n := p + 2, n + 1;
      assert Repeated('\\', n) == Repeated('\\', n - 1) + ['\\'];
      assert s + Repeated('\\', n) == s + Repeated('\\', n - 1) + ['\\'];
    }
    assert n == (q - i) / 2;
  }

  method PutAll(buf: array<char>, ghost t: seq<char>, i: nat, q: nat, ghost s: seq<char>, pw: nat)
      returns (p: nat, pw': nat)
    requires Unread(buf, t, q) && Written(buf, s, pw) && pw <= i < q
    modifies buf
    ensures Unread(buf, t, q) && Written(buf, s + Repeated('\\', q - i), pw') && pw' - pw == q - i && p == q
  {
    p := i + 1;
    pw' := Put(buf, t, q, s, pw, '\\');
    assert [ '\\' ] == Repeated('\\', 1);
    while p != q
      invariant i < p <= q && Unread(buf, t, q)
      invariant Written(buf, s + Repeated('\\', p - i), pw') && pw' == pw + (p - i)
      decreases q - p
    {
      pw' := Put(buf, t, q, s + Repeated('\\', p - i), pw', '\\');
      p := p + 1;
      assert Repeated('\\', p - i) == Repeated('\\', p - i - 1) + ['\\'];
      assert s + Repeated('\\', p - i) == s + Repeated('\\', p - i - 1) + ['\\'];
    }
  }

  /** A run of backslashes that starts at i. */
  method Escape(buf: array<char>, ghost t: seq<char>, i: nat, ghost s: seq<char>, pw: nat, quote: bool)
      returns (p: nat, pw': nat, quote': bool, ghost out: seq<char>)
    requires Unread(buf, t, i) && NoNul(t) && Written(buf, s, pw) && pw <= i < |t| && t[i] == '\\'
    modifies buf
    ensures i < p <= |t| && Unread(buf, t, p) && pw' <= p && Written(buf, s + out, pw')
    ensures Arg(t, i, quote) == Prepend(out, Arg(t, p, quote'))
  {
    ghost var n := Backslashes(t, i);
    var q := i + 1;
    while buf[q] == '\\'
      invariant i < q <= i + n
      decreases |t| - q
    {
      q := q + 1;
    }
    assert q == i + n;
    if buf[q] == '"' {
      out := Repeated('\\', n / 2);
      p, pw' := PutHalf(buf, t, i, q, s, pw);
      if p != q {
        quote' := !quote;
      } else {
        pw' := Put(buf, t, q, s + out, pw', '"');
        assert s + (out + ['"']) == s + out + ['"'];
        quote', p, out := quote, p + 1, out + ['"'];
      }
    } else {
      out, quote' := Repeated('\\', n), quote;
      p, pw' := PutAll(buf, t, i, q, s, pw);
    }
  }

  lemma Regrouped(a: seq<char>, b: seq<char>, c: seq<char>)
    ensures a + (b + c) == a + b + c && a + [] == a && [] + c == c
  {
  }

  /** The argument that starts at i. */
  method ParseArg(buf: array<char>, ghost t: seq<char>, i: nat, ghost s: seq<char>, pw: nat)
      returns (p: nat, pw': nat)
    requires Unread(buf, t, i) && NoNul(t) && Written(buf, s, pw) && pw <= i < |t|
    modifies buf
    ensures p == Arg(t, i, false).1 && Unread(buf, t, p)
    ensures Written(buf, s + Arg(t, i, false).0, pw') && pw' <= p && (pw' < p || p == |t|)
  {
    hide Written, Repeated;
    var quote := false;
    p, pw' := i, pw;
    ghost var whole := Arg(t, i, false);
    Regrouped(s, [], whole.0);
    ghost var done: seq<char> := [];
    while buf[p] != NUL
      invariant Unread(buf, t, p) && pw' <= p && Written(buf, s + done, pw')
      invariant done + Arg(t, p, quote).0 == whole.0 && Arg(t, p, quote).1 == whole.1
      decreases |t| - p
    {
      ghost var rest := Arg(t, p, quote);
      var c := buf[p];
      if c == '\\' {
        ghost var out;
        p, pw', quote, out := Escape(buf, t, p, s + done, pw', quote);
        Regrouped(s, done, out);
        Regrouped(done, out, Arg(t, p, quote).0);
        done := done + out;
      } else if c == '"' {
        p, quote := p + 1, !quote;
      } else if !quote && IsBlank(c) {
        p := p + 1;
        Regrouped(done, [], []);
        return;
      } else {
        p := p + 1;
        pw' := Put(buf, t, p, s + done, pw', c);
        Regrouped(s, done, [c]);
        Regrouped(done, [c], Arg(t, p, quote).0);
        done := done + [c];
      }
    }
    Regrouped(done, [], []);
  }

  // ----- all arguments -----

  /** Each argument with a NUL behind it. */
  function Joined(args: seq<seq<char>>): seq<char> {
    if args == [] then [] else Joined(args[..|args| - 1]) + (args[|args| - 1] + [NUL])
  }

  /** argv points to the arguments, one behind the other from the start of the buffer. */
  ghost predicate Points(argv: seq<nat>, args: seq<seq<char>>)
  {
    |argv| == |args| && forall k :: 0 <= k < |argv| ==> argv[k] == |Joined(args[..k])|
  }

  lemma JoinedMore(args: seq<seq<char>>, arg: seq<char>)
    ensures Joined(args + [arg]) == Joined(args) + arg + [NUL]
  {
    assert (args + [arg])[..|args|] == args;
    assert Joined(args) + (arg + [NUL]) == Joined(args) + arg + [NUL];
  }

  lemma PointsMore(argv: seq<nat>, args: seq<seq<char>>, arg: seq<char>)
    requires Points(argv, args)
    ensures Points(argv + [|Joined(args)|], args + [arg])
  {
    assert forall k :: 0 <= k <= |args| ==> (args + [arg])[..k] == args[..k];
    assert args[..|args|] == args;
  }

  method SkipBlanks(buf: array<char>, ghost t: seq<char>, from: nat) returns (p: nat)
    requires Unread(buf, t, from)
    ensures p == Blanks(t, from) && Unread(buf, t, p)
  {
    p := from;
    while IsBlank(buf[p])
      invariant from <= p && Unread(buf, t, p) && Blanks(t, p) == Blanks(t, from)
      decreases |t| - p
    {
      p := p + 1;
    }
  }

  /** The NUL behind an argument may replace the NUL behind the whole text, but nothing else that is unread. */
  method EndArg(buf: array<char>, ghost t: seq<char>, p: nat, ghost s: seq<char>, pw: nat) returns (pw': nat)
    requires Unread(buf, t, p) && Written(buf, s, pw) && (pw < p || pw == p == |t|)
    modifies buf
    ensures Unread(buf, t, p) && Written(buf, s + [NUL], pw') && (pw' <= p || p == |t|)
  {
    buf[pw] := NUL;
    pw' := pw + 1;
  }

  lemma ArgsStep(t: seq<char>, i: nat)
    requires i <= |t|
    ensures var j := Blanks(t, i);
            Args(t, i) == if j == |t| then [] else [Arg(t, j, false).0] + Args(t, Arg(t, j, false).1)
  {
    if Blanks(t, i) < |t| { ArgGoesOn(t, Blanks(t, i)); }
  }

  /**
   * argv and the overwritten buffer hold the arguments of the original text,
   * or there are too many.
   */
  method Parse(buf: array<char>, ghost t: seq<char>) returns (argv: Option<seq<nat>>)
    requires Unread(buf, t, 0) && NoNul(t)
    modifies buf
    ensures argv == None <==> |Args(t, 0)| >= MAX_ARGV
    ensures argv != None ==> Points(argv.value, Args(t, 0)) && Joined(Args(t, 0)) <= buf[..]
  {
    hide Args, Arg, Blanks, Joined, Points, Written;
    NothingYet(buf);
    var p, pw, starts: seq<nat> := 0, 0, [];
    ghost var args: seq<seq<char>> := [];
    while true
      invariant Unread(buf, t, p) && (pw <= p || p == |t|) && Written(buf, Joined(args), pw)
      invariant args + Args(t, p) == Args(t, 0) && Points(starts, args) && |starts| == |args| < MAX_ARGV
      decreases |t| + 1 - p
    {
      ArgsStep(t, p);
      p := SkipBlanks(buf, t, p);
      if buf[p] == NUL {
        assert args + [] == args;
        WrittenIsPrefix(buf, Joined(args), pw);
        return Some(starts);
      }
      ArgGoesOn(t, p);
      ghost var arg, whole := Arg(t, p, false).0, Joined(args);
      PointsMore(starts, args, arg);
      WrittenIsPrefix(buf, whole, pw);
      starts := starts + [pw];
      if |starts| == MAX_ARGV { return None; }
      p, pw := ParseArg(buf, t, p, whole, pw);
      pw := EndArg(buf, t, p, whole + arg, pw);
      JoinedMore(args, arg);
      assert args + ([arg] + Args(t, p)) == args + [arg] + Args(t, p);
      args := args + [arg];
    }
  }

  lemma NothingYet(buf: array<char>)
    ensures Written(buf, Joined([]), 0) && Points([], [])
  {
  }

  lemma WrittenIsPrefix(buf: array<char>, s: seq<char>, pw: nat)
    requires Written(buf, s, pw)
    ensures s <= buf[..] && pw == |s|
  {
    assert buf[..pw] == buf[..][..pw];
  }

  // ----- what argv points to -----

  lemma {:induction false} JoinedHasPrefix(args: seq<seq<char>>, n: nat)
    requires n <= |args|
    ensures Joined(args[..n]) <= Joined(args)
    decreases |args|
  {
    if n < |args| {
      assert args[..|args| - 1][..n] == args[..n];
      JoinedHasPrefix(args[..|args| - 1], n);
    } else {
      assert args[..n] == args;
    }
  }

  lemma {:induction false} ArgsHaveNoNul(t: seq<char>, i: nat)
    requires i <= |t| && NoNul(t)
    ensures forall k :: 0 <= k < |Args(t, i)| ==> NoNul(Args(t, i)[k])
    decreases |t| - i
  {
    var j := Blanks(t, i);
    if j < |t| {
      ArgGoesOn(t, j);
      ArgHasNoNul(t, j, false);
      ArgsHaveNoNul(t, Arg(t, j, false).1);
    }
  }

  /** Read up to its NUL, each of argv's strings is the argument of the pure tokenizer. */
  lemma ArgvStrings(b: seq<char>, t: seq<char>, argv: seq<nat>, k: nat)
    requires NoNul(t) && Points(argv, Args(t, 0)) && Joined(Args(t, 0)) <= b && k < |argv|
    ensures argv[k] <= |b| && StringAt(b, argv[k]) == Args(t, 0)[k]
  {
    hide Args, StringAt, NoNul;
    ArgsHaveNoNul(t, 0);
    var args := Args(t, 0);
    var arg, next := args[k], args[..k + 1];
    JoinedHasPrefix(args, k + 1);
    assert next[..k] == args[..k] && next[k] == arg;
    var at := argv[k];
    assert Joined(next) == Joined(args[..k]) + (arg + [NUL]);
    assert b[..|Joined(next)|] == Joined(next);
    assert b[at..at + |arg|] == Joined(next)[at..at + |arg|] == arg;
    assert b[at + |arg|] == Joined(next)[at + |arg|] == NUL;
    StringFound(b, at, arg);
  }

  // ----- quoting, the inverse -----

  /** s with n backslashes before it, as it is written between quotation marks. */
  function Escaped(s: seq<char>, n: nat): seq<char>
    decreases |s|
  {
    if s == [] then Repeated('\\', 2 * n)
    else if s[0] == '\\' then Escaped(s[1..], n + 1)
    else if s[0] == '"' then Repeated('\\', 2 * n + 1) + ['"'] + Escaped(s[1..], 0)
    else Repeated('\\', n) + [s[0]] + Escaped(s[1..], 0)
  }

  /** A command line that passes on any arguments. */
  function CommandLine(args: seq<seq<char>>): seq<char> {
    if args == [] then [] else ['"'] + Escaped(args[0], 0) + ['"', ' '] + CommandLine(args[1..])
  }

  ghost predicate TextAt(t: seq<char>, i: nat, s: seq<char>) {
    i + |s| <= |t| && t[i..i + |s|] == s
  }

  lemma TextParts(t: seq<char>, i: nat, a: seq<char>, b: seq<char>)
    requires TextAt(t, i, a + b)
    ensures TextAt(t, i, a) && TextAt(t, i + |a|, b)
  {
    assert t[i..i + |a|] == t[i..i + |a + b|][..|a|];
    assert t[i + |a|..i + |a| + |b|] == t[i..i + |a + b|][|a|..];
  }

  lemma {:induction false} BackslashRun(t: seq<char>, i: nat, n: nat)
    requires TextAt(t, i, Repeated('\\', n)) && i + n < |t| && t[i + n] != '\\'
    ensures Backslashes(t, i) == n
    ensures n > 0 ==> t[i] == '\\'
    decreases n
  {
    if n > 0 {
      assert t[i..i + n][0] == '\\';
      assert t[i + 1..i + n] == t[i..i + n][1..] == Repeated('\\', n - 1);
      BackslashRun(t, i + 1, n - 1);
    }
  }

  lemma PrependTwice(a: seq<char>, b: seq<char>, r: (seq<char>, nat))
    ensures Prepend(a, Prepend(b, r)) == Prepend(a + b, r)
  {
    assert a + (b + r.0) == a + b + r.0;
  }

  /** An even run of backslashes before the closing quotation mark. */
  lemma ReadsEnd(t: seq<char>, i: nat, n: nat)
    requires TextAt(t, i, Repeated('\\', 2 * n)) && i + 2 * n < |t| && t[i + 2 * n] == '"'
    ensures Arg(t, i, true) == Prepend(Repeated('\\', n), Arg(t, i + 2 * n + 1, false))
  {
    BackslashRun(t, i, 2 * n);
    if n == 0 { assert Repeated('\\', 0) + Arg(t, i + 1, false).0 == Arg(t, i + 1, false).0; }
  }

  /** An odd one before a quotation mark of the argument. */
  lemma ReadsQuote(t: seq<char>, i: nat, n: nat)
    requires TextAt(t, i, Repeated('\\', 2 * n + 1)) && i + 2 * n + 1 < |t| && t[i + 2 * n + 1] == '"'
    ensures Arg(t, i, true) == Prepend(Repeated('\\', n) + ['"'], Arg(t, i + 2 * n + 2, true))
  {
    BackslashRun(t, i, 2 * n + 1);
  }

  lemma ReadsOther(t: seq<char>, i: nat, n: nat, c: char)
    requires TextAt(t, i, Repeated('\\', n)) && i + n < |t| && t[i + n] == c && c != '"' && c != '\\'
    ensures Arg(t, i, true) == Prepend(Repeated('\\', n) + [c], Arg(t, i + n + 1, true))
  {
    BackslashRun(t, i, n);
    assert Arg(t, i + n, true) == Prepend([c], Arg(t, i + n + 1, true));
    PrependTwice(Repeated('\\', n), [c], Arg(t, i + n + 1, true));
    if n == 0 { assert Repeated('\\', 0) + [c] == [c]; }
  }

  /** Between quotation marks, what has been escaped is read back. */
  lemma {:induction false} EscapedIsRead(t: seq<char>, i: nat, s: seq<char>, n: nat)
    requires TextAt(t, i, Escaped(s, n) + ['"'])
    ensures i + |Escaped(s, n)| + 1 <= |t|
    ensures Arg(t, i, true) == Prepend(Repeated('\\', n) + s, Arg(t, i + |Escaped(s, n)| + 1, false))
    decreases |s|
  {
    hide Arg, Prepend, Backslashes, TextAt, Repeated;
    TextParts(t, i, Escaped(s, n), ['"']);
    if s == [] {
      CharAt(t, i + 2 * n, '"');
      ReadsEnd(t, i, n);
      assert Repeated('\\', n) + [] == Repeated('\\', n);
    } else if s[0] == '\\' {
      EscapedIsRead(t, i, s[1..], n + 1);
      Shifted(n, s);
    } else {
      var run, k := Repeated('\\', n) + [s[0]], if s[0] == '"' then 2 * n + 1 else n;
      Split(t, i, k, s[0], Escaped(s[1..], 0));
      if s[0] == '"' { ReadsQuote(t, i, n); } else { ReadsOther(t, i, n, s[0]); }
      EscapedIsRead(t, i + k + 1, s[1..], 0);
      PrependTwice(run, Repeated('\\', 0) + s[1..], Arg(t, i + |Escaped(s, n)| + 1, false));
      Rejoined(n, s);
    }
  }

  lemma CharAt(t: seq<char>, i: nat, c: char)
    requires TextAt(t, i, [c])
    ensures i < |t| && t[i] == c
  {
    assert t[i..i + 1][0] == c;
  }

  lemma Shifted(n: nat, s: seq<char>)
    requires s != [] && s[0] == '\\'
    ensures Repeated('\\', n + 1) + s[1..] == Repeated('\\', n) + s
  {
  }

  lemma Split(t: seq<char>, i: nat, n: nat, c: char, rest: seq<char>)
    requires TextAt(t, i, Repeated('\\', n) + [c] + rest + ['"'])
    ensures TextAt(t, i, Repeated('\\', n)) && i + n < |t| && t[i + n] == c && TextAt(t, i + n + 1, rest + ['"'])
  {
    var run := Repeated('\\', n);
    assert run + [c] + rest + ['"'] == run + ([c] + (rest + ['"']));
    TextParts(t, i, run, [c] + (rest + ['"']));
    TextParts(t, i + n, [c], rest + ['"']);
    assert t[i + n..i + n + 1][0] == c;
  }

  lemma Rejoined(n: nat, s: seq<char>)
    requires s != []
    ensures Repeated('\\', n) + [s[0]] + (Repeated('\\', 0) + s[1..]) == Repeated('\\', n) + s
  {
  }

  lemma ReadsMark(t: seq<char>, i: nat)
    requires i < |t| && t[i] == '"'
    ensures Arg(t, i, false) == Arg(t, i + 1, true) && Blanks(t, i) == i
  {
  }

  lemma ReadsBlank(t: seq<char>, i: nat)
    requires i < |t| && t[i] == ' '
    ensures Arg(t, i, false) == ([], i + 1)
  {
  }

  /** A quoted argument and the space behind it. */
  lemma QuotedIsRead(t: seq<char>, i: nat, s: seq<char>, rest: seq<char>)
    requires i <= |t| && t[i..] == ['"'] + Escaped(s, 0) + ['"', ' '] + rest
    ensures Blanks(t, i) == i < |t| && Arg(t, i, false).0 == s
    ensures var k := Arg(t, i, false).1; k <= |t| && t[k..] == rest
  {
    hide Arg, Blanks, Escaped, Prepend, TextAt;
    var e := Escaped(s, 0);
    var j := i + 1 + |e| + 1;
    QuotedParts(t, i, e, rest);
    ReadsMark(t, i);
    ReadsBlank(t, j);
    EscapedIsRead(t, i + 1, s, 0);
    Unescaped(s, Arg(t, j, false));
  }

  lemma QuotedParts(t: seq<char>, i: nat, e: seq<char>, rest: seq<char>)
    requires i <= |t| && t[i..] == ['"'] + e + ['"', ' '] + rest
    ensures TextAt(t, i + 1, e + ['"'])
    ensures i + 1 + |e| + 2 + |rest| == |t| && t[i] == '"' && t[i + 1 + |e| + 1] == ' '
    ensures t[i + 1 + |e| + 2..] == rest
  {
    var u := t[i..];
    assert t[i + 1..i + 1 + |e| + 1] == u[1..1 + |e| + 1] == e + ['"'];
    assert u[0] == '"' && u[|e| + 2] == ' ' && u[|e| + 3..] == rest;
    assert t[i + |e| + 3..] == u[|e| + 3..];
  }

  lemma Unescaped(s: seq<char>, r: (seq<char>, nat))
    requires r.0 == []
    ensures Prepend(Repeated('\\', 0) + s, r) == (s, r.1)
  {
    assert Repeated('\\', 0) + s + [] == s;
  }

  /** Quoting and parsing are a round trip, for all arguments. */
  lemma {:induction false} QuotedIsParsed(t: seq<char>, i: nat, args: seq<seq<char>>)
    requires i <= |t| && t[i..] == CommandLine(args)
    ensures Args(t, i) == args
    decreases |args|
  {
    hide Arg, Blanks, Escaped;
    ArgsStep(t, i);
    if args == [] {
      AtEnd(t, i);
    } else {
      QuotedIsRead(t, i, args[0], CommandLine(args[1..]));
      QuotedIsParsed(t, Arg(t, i, false).1, args[1..]);
    }
  }

  lemma AtEnd(t: seq<char>, i: nat)
    requires i <= |t| && t[i..] == []
    ensures Blanks(t, i) == i == |t|
  {
  }

  lemma RoundTrip(args: seq<seq<char>>)
    ensures Args(CommandLine(args), 0) == args
  {
    assert CommandLine(args)[0..] == CommandLine(args);
    QuotedIsParsed(CommandLine(args), 0, args);
  }

  // ----- arguments without quotation marks -----

  // A word and the blanks before it.
  datatype Item = Item(blanks: seq<char>, word: seq<char>)

  predicate BlankText(s: seq<char>) {
    forall k :: 0 <= k < |s| ==> s[k] == ' ' || s[k] == '\t'
  }

  /** Backslashes are allowed. */
  predicate PlainWord(w: seq<char>) {
    forall k :: 0 <= k < |w| ==> w[k] != ' ' && w[k] != '\t' && w[k] != '"'
  }

  predicate Proper(items: seq<Item>) {
    forall k :: 0 <= k < |items| ==>
      && items[k].word != [] && PlainWord(items[k].word)
      && BlankText(items[k].blanks) && (k > 0 ==> items[k].blanks != [])
  }

  function Separated(items: seq<Item>, tail: seq<char>): seq<char> {
    if items == [] then tail else items[0].blanks + items[0].word + Separated(items[1..], tail)
  }

  function WordsOf(items: seq<Item>): seq<seq<char>> {
    if items == [] then [] else [items[0].word] + WordsOf(items[1..])
  }

  lemma {:induction false} BlanksSkipped(t: seq<char>, i: nat, b: seq<char>, rest: seq<char>)
    requires i <= |t| && t[i..] == b + rest && BlankText(b) && (rest != [] ==> rest[0] != ' ' && rest[0] != '\t')
    ensures Blanks(t, i) == i + |b| <= |t| && t[i + |b|..] == rest
    decreases |b|
  {
    assert |t| - i == |b| + |rest|;
    if b != [] {
      assert t[i] == t[i..][0] == b[0];
      assert t[i + 1..] == t[i..][1..] == b[1..] + rest;
      BlanksSkipped(t, i + 1, b[1..], rest);
    } else {
      assert rest != [] ==> t[i] == t[i..][0] == rest[0];
    }
  }

  lemma BackslashesInside(t: seq<char>, i: nat, w: seq<char>, rest: seq<char>)
    requires i < |t| && t[i..] == w + rest && w != [] && w[0] == '\\' && PlainWord(w)
    requires rest != [] ==> rest[0] == ' ' || rest[0] == '\t'
    ensures var n := Backslashes(t, i);
            && 0 < n <= |w| && t[i + n..] == w[n..] + rest && Repeated('\\', n) + w[n..] == w
            && (i + n < |t| ==> t[i + n] != '"')
  {
    var n := Backslashes(t, i);
    assert |t| - i == |w| + |rest|;
    assert t[i] == t[i..][0];
    assert rest != [] ==> t[i + |w|] == t[i..][|w|] == rest[0];
    assert forall k :: 0 <= k < n ==> w[k] == t[i..][k] == t[i + k];
    assert i + n < |t| ==> t[i + n] == t[i..][n];
    assert Repeated('\\', n) == w[..n];
    assert t[i + n..] == t[i..][n..];
  }

  /** A plain word is an argument as it stands, backslashes included. */
  lemma {:induction false} PlainIsRead(t: seq<char>, i: nat, w: seq<char>, rest: seq<char>)
    requires i <= |t| && t[i..] == w + rest && PlainWord(w) && (rest != [] ==> rest[0] == ' ' || rest[0] == '\t')
    ensures Arg(t, i, false) == (w, if rest == [] then |t| else i + |w| + 1)
    decreases |w|
  {
    hide Backslashes, Repeated;
    assert |t| - i == |w| + |rest|;
    assert i < |t| ==> t[i] == t[i..][0];
    if w == [] {
      assert rest != [] ==> t[i] == rest[0];
    } else if w[0] == '\\' {
      BackslashesInside(t, i, w, rest);
      var n := Backslashes(t, i);
      PlainIsRead(t, i + n, w[n..], rest);
    } else {
      assert t[i] == w[0];
      assert t[i + 1..] == t[i..][1..] == w[1..] + rest;
      PlainIsRead(t, i + 1, w[1..], rest);
      assert [w[0]] + w[1..] == w;
    }
  }

  lemma FirstItem(items: seq<Item>, tail: seq<char>)
    requires items != []
    ensures Separated(items, tail) == items[0].blanks + (items[0].word + Separated(items[1..], tail))
    ensures WordsOf(items) == [items[0].word] + WordsOf(items[1..])
  {
  }

  /** What follows a word starts with a blank, which belongs to the word. */
  lemma NextItems(items: seq<Item>, tail: seq<char>) returns (items': seq<Item>, tail': seq<char>)
    requires Proper(items) && BlankText(tail) && Separated(items, tail) != [] && (items != [] ==> items[0].blanks != [])
    ensures Proper(items') && BlankText(tail') && WordsOf(items') == WordsOf(items) && |items'| == |items|
    ensures var s := Separated(items, tail); (s[0] == ' ' || s[0] == '\t') && Separated(items', tail') == s[1..]
  {
    if items == [] {
      items', tail' := [], tail[1..];
    } else {
      var first := items[0];
      items', tail' := [Item(first.blanks[1..], first.word)] + items[1..], tail;
      assert items'[1..] == items[1..];
      assert first.blanks == [first.blanks[0]] + first.blanks[1..];
    }
  }

  /** Text without quotation marks is split at spaces and tabs. */
  lemma {:induction false} WordsAreRead(t: seq<char>, i: nat, items: seq<Item>, tail: seq<char>)
    requires i <= |t| && t[i..] == Separated(items, tail) && Proper(items) && BlankText(tail)
    ensures Args(t, i) == WordsOf(items)
    decreases |items|
  {
    hide Arg, Blanks;
    if items == [] {
      assert tail + [] == tail;
      BlanksSkipped(t, i, tail, []);
    } else {
      FirstItem(items, tail);
      var b, w, rest := items[0].blanks, items[0].word, Separated(items[1..], tail);
      BlanksSkipped(t, i, b, w + rest);
      var j := i + |b|;
      assert |t| - j == |w| + |rest|;
      assert Proper(items[1..]) && (|items| > 1 ==> items[1].blanks != []);
      if rest == [] {
        PlainIsRead(t, j, w, rest);
        assert t[|t|..] == [];
        NoWordsLeft(items[1..], tail);
        BlanksSkipped(t, |t|, [], []);
      } else {
        var items', tail' := NextItems(items[1..], tail);
        PlainIsRead(t, j, w, rest);
        assert t[j + |w| + 1..] == t[j..][|w| + 1..] == rest[1..];
        WordsAreRead(t, j + |w| + 1, items', tail');
      }
    }
  }

  lemma NoWordsLeft(items: seq<Item>, tail: seq<char>)
    requires Proper(items) && Separated(items, tail) == []
    ensures WordsOf(items) == []
  {
  }
}
