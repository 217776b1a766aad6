/**
 * Tail merging in the link script: a string that is the tail of another one
 * is not emitted, but found inside it. The strings are compared by their
 * reversed source text, sorted, and only neighbours are looked at.
 */
module TailMerge {

  import opened Common

  type Text = seq<Byte>

  const QUOTE: Byte := 0x27

  // ----- reversed source text -----

  /** These stand for themselves between quotes; other bytes are decimal numbers. */
  predicate IsQuotable(b: Byte) {
    32 <= b <= 126 && b != QUOTE
  }

  function ReversedDigits(n: nat): (t: Text)
    ensures t != [] && forall i :: 0 <= i < |t| ==> '0' as int <= t[i] <= '9' as int
  {
    if n < 10 then [48 + n] else [48 + n % 10] + ReversedDigits(n / 10)
  }

  const COMMA_SPACE: Text := [0x20, 0x2c]

  /** The reversed text of one byte, after a quoted byte or not. */
  function Token(quoted: bool, b: Byte): (t: Text)
    ensures t != []
  {
    if IsQuotable(b) then (if quoted then [b] else [QUOTE, b])
    else (if quoted then [QUOTE] + COMMA_SPACE else []) + ReversedDigits(b) + COMMA_SPACE
  }

  /** The reversed text of the bytes before the final NUL, last byte first, as it is sorted by. */
  function KeyOf(r: Text, quoted: bool): Text {
    if r == [] then [] else Token(quoted, r[0]) + KeyOf(r[1..], IsQuotable(r[0]))
  }

  function Reverse(s: Text): (r: Text)
    ensures |r| == |s| && forall i :: 0 <= i < |s| ==> r[i] == s[|s| - 1 - i]
  {
    if s == [] then [] else Reverse(s[1..]) + [s[0]]
  }

  function Key(s: Text): Text {
    KeyOf(Reverse(s), false)
  }

  predicate IsPrefix(a: Text, b: Text) {
    |a| <= |b| && b[..|a|] == a
  }

  predicate IsSuffix(a: Text, b: Text) {
    |a| <= |b| && b[|b| - |a|..] == a
  }

  // A digit string is followed by a space, so no number is a prefix of another.
  lemma {:induction false} DigitsDiffer(m: nat, n: nat, x: Text, y: Text)
    requires IsPrefix(ReversedDigits(m) + COMMA_SPACE + x, ReversedDigits(n) + COMMA_SPACE + y)
    ensures m == n
  {
    hide ReversedDigits, IsPrefix;
    var a, b := ReversedDigits(m) + COMMA_SPACE + x, ReversedDigits(n) + COMMA_SPACE + y;
    FirstDigit(m, x);
    FirstDigit(n, y);
    SameByte(a, b, 0);
    SameByte(a, b, 1);
    if m >= 10 && n >= 10 {
      SameStart([48 + m % 10], ReversedDigits(m / 10) + COMMA_SPACE + x, ReversedDigits(n / 10) + COMMA_SPACE + y);
      DigitsDiffer(m / 10, n / 10, x, y);
    }
  }

  lemma FirstDigit(n: nat, x: Text)
    ensures var a := ReversedDigits(n) + COMMA_SPACE + x;
            && |a| >= 2 && a[0] == 48 + n % 10 && (a[1] == 0x20 <==> n < 10)
            && (n >= 10 ==> a == [48 + n % 10] + (ReversedDigits(n / 10) + COMMA_SPACE + x))
  {
    if n >= 10 {
      var d := ReversedDigits(n / 10);
      assert [48 + n % 10] + d + COMMA_SPACE + x == [48 + n % 10] + (d + COMMA_SPACE + x);
      assert (d + COMMA_SPACE + x)[0] == d[0];
    }
  }

  lemma SameStart(t: Text, x: Text, y: Text)
    ensures IsPrefix(t + x, t + y) <==> IsPrefix(x, y)
  {
    if |x| <= |y| {
      assert (t + y)[..|t + x|] == t + y[..|x|];
      assert (t + y)[..|t + x|][|t|..] == y[..|x|] && (t + x)[|t|..] == x;
    }
  }

  lemma SameByte(a: Text, b: Text, i: nat)
    requires IsPrefix(a, b) && i < |a|
    ensures a[i] == b[i]
  {
    assert b[..|a|][i] == a[i];
  }

  /** Tokens are a prefix code: the first byte can be read off any continuation. */
  lemma TokensDiffer(quoted: bool, p: Byte, q: Byte, x: Text, y: Text)
    requires IsPrefix(Token(quoted, p) + x, Token(quoted, q) + y)
    ensures p == q
  {
    hide IsPrefix, ReversedDigits;
    var a, b := Token(quoted, p) + x, Token(quoted, q) + y;
    SameByte(a, b, 0);
    assert a[0] == Token(quoted, p)[0] && b[0] == Token(quoted, q)[0];
    if IsQuotable(p) && IsQuotable(q) {
      if !quoted { SameByte(a, b, 1); }
    } else if !IsQuotable(p) && !IsQuotable(q) {
      CodesDiffer(quoted, p, q, x, y);
    }
  }

  lemma CodesDiffer(quoted: bool, p: Byte, q: Byte, x: Text, y: Text)
    requires !IsQuotable(p) && !IsQuotable(q) && IsPrefix(Token(quoted, p) + x, Token(quoted, q) + y)
    ensures p == q
  {
    hide IsPrefix, ReversedDigits, Token;
    CodeParts(quoted, p, x);
    CodeParts(quoted, q, y);
    SameStart(if quoted then [QUOTE] + COMMA_SPACE else [],
              ReversedDigits(p) + COMMA_SPACE + x, ReversedDigits(q) + COMMA_SPACE + y);
    DigitsDiffer(p, q, x, y);
  }

  lemma CodeParts(quoted: bool, b: Byte, rest: Text)
    requires !IsQuotable(b)
    ensures Token(quoted, b) + rest ==
            (if quoted then [QUOTE] + COMMA_SPACE else []) + (ReversedDigits(b) + COMMA_SPACE + rest)
  {
    hide ReversedDigits;
  }

  lemma {:induction false} KeyOfPrefix(a: Text, b: Text, quoted: bool)
    ensures IsPrefix(KeyOf(a, quoted), KeyOf(b, quoted)) <==> IsPrefix(a, b)
  {
    if a == [] {
      assert KeyOf(a, quoted) == [];
    } else if b != [] {
      var x, y := KeyOf(a[1..], IsQuotable(a[0])), KeyOf(b[1..], IsQuotable(b[0]));
      var t, u := Token(quoted, a[0]), Token(quoted, b[0]);
      if IsPrefix(t + x, u + y) {
        TokensDiffer(quoted, a[0], b[0], x, y);
      }
      if IsPrefix(a, b) {
        SameByte(a, b, 0);
      }
      if a[0] == b[0] {
        KeyOfPrefix(a[1..], b[1..], IsQuotable(a[0]));
        SameStart(t, x, y);
        SameStart([a[0]], a[1..], b[1..]);
        assert a == [a[0]] + a[1..] && b == [a[0]] + b[1..];
      }
    }
  }

  /** What the script tests on text is the tail relation on the strings themselves. */
  lemma PrefixOfKeyIsSuffix(s: Text, t: Text)
    ensures IsPrefix(Key(s), Key(t)) <==> IsSuffix(s, t)
  {
    hide KeyOf;
    var a, b := Reverse(s), Reverse(t);
    KeyOfPrefix(a, b, false);
    if |s| <= |t| {
      var tail := t[|t| - |s|..];
      if IsPrefix(a, b) {
        forall i | 0 <= i < |s| ensures tail[i] == s[i] {
          assert b[..|a|][|s| - 1 - i] == a[|s| - 1 - i];
        }
        assert tail == s;
      }
      if IsSuffix(s, t) {
        forall i | 0 <= i < |s| ensures b[i] == a[i] {
          assert tail[|s| - 1 - i] == s[|s| - 1 - i];
        }
        assert b[..|a|] == a;
      }
    }
  }

  // ----- the sort -----

  /** cmp on strings: less or equal. */
  predicate AtMost(a: Text, b: Text) {
    a == [] || (b != [] && (a[0] < b[0] || (a[0] == b[0] && AtMost(a[1..], b[1..]))))
  }

  lemma {:induction false} AtMostTotal(a: Text, b: Text)
    ensures AtMost(a, b) || AtMost(b, a)
  {
    if a != [] && b != [] && a[0] == b[0] { AtMostTotal(a[1..], b[1..]); }
  }

  lemma {:induction false} AtMostTransitive(a: Text, b: Text, c: Text)
    requires AtMost(a, b) && AtMost(b, c)
    ensures AtMost(a, c)
  {
    if a != [] && a[0] == b[0] == c[0] { AtMostTransitive(a[1..], b[1..], c[1..]); }
  }

  lemma {:induction false} AtMostAntisymmetric(a: Text, b: Text)
    requires AtMost(a, b) && AtMost(b, a)
    ensures a == b
  {
    if a != [] {
      AtMostAntisymmetric(a[1..], b[1..]);
      assert a == [a[0]] + a[1..] && b == [b[0]] + b[1..];
    }
  }

  lemma {:induction false} PrefixIsAtMost(a: Text, b: Text)
    requires IsPrefix(a, b)
    ensures AtMost(a, b)
  {
    if a != [] {
      assert b[..|a|][0] == a[0];
      assert b[1..][..|a[1..]|] == b[..|a|][1..] == a[1..];
      PrefixIsAtMost(a[1..], b[1..]);
    }
  }

  /** Whatever is sorted between a string and a longer one with that prefix has the prefix, too. */
  lemma {:induction false} Between(a: Text, b: Text, c: Text)
    requires AtMost(a, b) && AtMost(b, c) && IsPrefix(a, c)
    ensures IsPrefix(a, b)
  {
    if a != [] {
      assert c[..|a|][0] == a[0];
      assert c[1..][..|a[1..]|] == c[..|a|][1..] == a[1..];
      Between(a[1..], b[1..], c[1..]);
      assert a == [a[0]] + a[1..] && b[..|a|] == [b[0]] + b[1..][..|a| - 1];
    }
  }

  ghost predicate InRange(order: seq<nat>, n: nat) {
    forall p :: 0 <= p < |order| ==> order[p] < n
  }

  /** In the order of the keys, and in their own order if the keys are equal. */
  ghost predicate InSequence(strs: seq<Text>, i: nat, j: nat)
    requires i < |strs| && j < |strs|
  {
    AtMost(Key(strs[i]), Key(strs[j])) && (Key(strs[i]) == Key(strs[j]) ==> i < j)
  }

  ghost predicate Sorted(order: seq<nat>, strs: seq<Text>)
    requires InRange(order, |strs|)
  {
    forall p, q :: 0 <= p < q < |order| ==> InSequence(strs, order[p], order[q])
  }

  /** Each of the indices up to n occurs once. */
  ghost predicate Permutation(order: seq<nat>, n: nat) {
    && |order| == n && InRange(order, n)
    && (forall p, q :: 0 <= p < q < n ==> order[p] != order[q])
    && (forall i :: 0 <= i < n ==> i in order)
  }

  /** Where to put a key, behind all that are equal to it. */
  function Place(order: seq<nat>, strs: seq<Text>, key: Text): (p: nat)
    requires forall p :: 0 <= p < |order| ==> order[p] < |strs|
    ensures p <= |order|
  {
    if order == [] then 0
    else if AtMost(Key(strs[order[|order| - 1]]), key) then |order|
    else Place(order[..|order| - 1], strs, key)
  }

  /** rest with i at position p. */
  function InsertedAt(rest: seq<nat>, p: nat, i: nat): (order: seq<nat>)
    requires p <= |rest|
    ensures |order| == |rest| + 1
    ensures forall q :: 0 <= q < |order| ==> order[q] == if q < p then rest[q] else if q == p then i else rest[q - 1]
  {
    rest[..p] + [i] + rest[p..]
  }

  /** Perl's sort of the first n strings, by key and then by index. */
  function SortedOrder(strs: seq<Text>, n: nat): (order: seq<nat>)
    requires n <= |strs|
    ensures |order| == n && forall p :: 0 <= p < n ==> order[p] < n
  {
    if n == 0 then []
    else
      var rest := SortedOrder(strs, n - 1);
      InsertedAt(rest, Place(rest, strs, Key(strs[n - 1])), n - 1)
  }

  lemma {:induction false} PlaceIsRight(order: seq<nat>, strs: seq<Text>, key: Text)
    requires InRange(order, |strs|) && Sorted(order, strs)
    ensures var p := Place(order, strs, key);
            && (forall q :: 0 <= q < p ==> AtMost(Key(strs[order[q]]), key))
            && (forall q :: p <= q < |order| ==> AtMost(key, Key(strs[order[q]])) && key != Key(strs[order[q]]))
  {
    hide AtMost, Key;
    if order != [] {
      var last := Key(strs[order[|order| - 1]]);
      AtMostTotal(last, key);
      AtMostTotal(last, last);
      if AtMost(last, key) {
        forall q | 0 <= q < |order| ensures AtMost(Key(strs[order[q]]), key) {
          if q < |order| - 1 {
            assert InSequence(strs, order[q], order[|order| - 1]);
            AtMostTransitive(Key(strs[order[q]]), last, key);
          }
        }
      } else {
        var init := order[..|order| - 1];
        PlaceIsRight(init, strs, key);
        forall q | 0 <= q < |order|
          ensures q < Place(init, strs, key) ==> AtMost(Key(strs[order[q]]), key)
          ensures q >= Place(init, strs, key) ==> AtMost(key, Key(strs[order[q]])) && key != Key(strs[order[q]])
        {
          assert q < |order| - 1 ==> order[q] == init[q];
        }
      }
    }
  }

  lemma InsertedSorted(rest: seq<nat>, strs: seq<Text>, p: nat, i: nat)
    requires i < |strs| && InRange(rest, i) && Sorted(rest, strs) && p <= |rest|
    requires forall q :: 0 <= q < p ==> AtMost(Key(strs[rest[q]]), Key(strs[i]))
    requires forall q :: p <= q < |rest| ==>
               AtMost(Key(strs[i]), Key(strs[rest[q]])) && Key(strs[i]) != Key(strs[rest[q]])
    ensures InRange(InsertedAt(rest, p, i), |strs|) && Sorted(InsertedAt(rest, p, i), strs)
  {
    hide AtMost, Key;
    var order := InsertedAt(rest, p, i);
    forall q, r | 0 <= q < r < |order| ensures InSequence(strs, order[q], order[r]) {
      if q != p && r != p {
        assert InSequence(strs, rest[if q < p then q else q - 1], rest[if r < p then r else r - 1]);
      }
    }
  }

  lemma InsertedPermutation(rest: seq<nat>, p: nat, i: nat)
    requires Permutation(rest, i) && p <= i
    ensures Permutation(InsertedAt(rest, p, i), i + 1)
  {
    var order := InsertedAt(rest, p, i);
    forall j | 0 <= j < i + 1 ensures j in order {
      if j < i {
        assert j in rest;
        var q :| 0 <= q < |rest| && rest[q] == j;
        assert order[if q < p then q else q + 1] == j;
      } else {
        assert order[p] == i;
      }
    }
  }

  lemma {:induction false} SortedOrderIsRight(strs: seq<Text>, n: nat)
    requires n <= |strs|
    ensures var order := SortedOrder(strs, n);
            InRange(order, |strs|) && Sorted(order, strs) && Permutation(order, n)
  {
    hide AtMost, Key, Place;
    if n > 0 {
      var rest, key := SortedOrder(strs, n - 1), Key(strs[n - 1]);
      SortedOrderIsRight(strs, n - 1);
      PlaceIsRight(rest, strs, key);
      InsertedSorted(rest, strs, Place(rest, strs, key), n - 1);
      InsertedPermutation(rest, Place(rest, strs, key), n - 1);
    }
  }

  // ----- which strings are dropped -----

  /** The string at position p of the sorted order is a tail of the one after it. */
  predicate TailOfNext(strs: seq<Text>, order: seq<nat>, p: nat)
    requires p + 1 < |order| && order[p] < |strs| && order[p + 1] < |strs|
  {
    IsPrefix(Key(strs[order[p]]), Key(strs[order[p + 1]]))
  }

  ghost predicate IsDropped(strs: seq<Text>, i: nat) {
    var order := SortedOrder(strs, |strs|);
    exists p :: 0 <= p < |strs| - 1 && order[p] == i && TailOfNext(strs, order, p)
  }

  lemma EqualKeys(s: Text, t: Text)
    requires Key(s) == Key(t)
    ensures s == t
  {
    PrefixOfKeyIsSuffix(s, t);
    PrefixOfKeyIsSuffix(t, s);
    assert IsPrefix(Key(s), Key(t));
  }

  /** A string is dropped exactly if it is a proper tail of another one or equal to a later one. */
  ghost predicate HasBetter(strs: seq<Text>, i: nat)
    requires i < |strs|
  {
    exists j :: 0 <= j < |strs| && j != i && IsSuffix(strs[i], strs[j]) && (strs[i] == strs[j] ==> i < j)
  }

  lemma DroppedExactly(strs: seq<Text>, i: nat)
    requires i < |strs|
    ensures IsDropped(strs, i) <==> HasBetter(strs, i)
  {
    hide AtMost, Key, IsSuffix, SortedOrder;
    var order := SortedOrder(strs, |strs|);
    SortedOrderIsRight(strs, |strs|);
    if IsDropped(strs, i) {
      var p :| 0 <= p < |strs| - 1 && order[p] == i && TailOfNext(strs, order, p);
      var j := order[p + 1];
      PrefixOfKeyIsSuffix(strs[i], strs[j]);
      assert InSequence(strs, i, j);
    }
    if HasBetter(strs, i) {
      var j :| 0 <= j < |strs| && j != i && IsSuffix(strs[i], strs[j]) && (strs[i] == strs[j] ==> i < j);
      PrefixOfKeyIsSuffix(strs[i], strs[j]);
      assert i in order && j in order;
      var p :| 0 <= p < |order| && order[p] == i;
      var q :| 0 <= q < |order| && order[q] == j;
      NextHasPrefix(strs, order, p, q);
    }
  }

  lemma EqualInOrder(strs: seq<Text>, order: seq<nat>, q: nat, p: nat)
    requires InRange(order, |strs|) && Sorted(order, strs) && q < p < |order|
    requires AtMost(Key(strs[order[p]]), Key(strs[order[q]]))
    ensures strs[order[p]] == strs[order[q]] && order[q] < order[p]
  {
    hide AtMost, Key;
    assert InSequence(strs, order[q], order[p]);
    AtMostAntisymmetric(Key(strs[order[p]]), Key(strs[order[q]]));
    EqualKeys(strs[order[p]], strs[order[q]]);
  }

  /** If anything other than an equal string has the key at p as a prefix, then the next one has it. */
  lemma NextHasPrefix(strs: seq<Text>, order: seq<nat>, p: nat, q: nat)
    requires InRange(order, |strs|) && Sorted(order, strs) && p < |order| && q < |order| && p != q
    requires IsPrefix(Key(strs[order[p]]), Key(strs[order[q]]))
    requires strs[order[p]] == strs[order[q]] ==> order[p] < order[q]
    ensures p + 1 < |order| && TailOfNext(strs, order, p)
  {
    hide AtMost, Key;
    var a, c := Key(strs[order[p]]), Key(strs[order[q]]);
    PrefixIsAtMost(a, c);
    if q < p { EqualInOrder(strs, order, q, p); }
    var b := Key(strs[order[p + 1]]);
    assert InSequence(strs, order[p], order[p + 1]);
    if p + 1 < q {
      assert InSequence(strs, order[p + 1], order[q]);
      Between(a, b, c);
    }
  }

  lemma EarlierOfEqualIsDropped(strs: seq<Text>, i: nat, j: nat)
    requires i < j < |strs| && strs[i] == strs[j]
    ensures IsDropped(strs, i)
  {
    DroppedExactly(strs, i);
    hide IsDropped;
    assert IsSuffix(strs[i], strs[j]);
  }

  /** No string that is kept is a tail of another one that is kept. */
  lemma NothingLeftToMerge(strs: seq<Text>, i: nat, j: nat)
    requires i < |strs| && j < |strs| && i != j && !IsDropped(strs, i) && !IsDropped(strs, j)
    ensures !IsSuffix(strs[i], strs[j])
  {
    hide IsDropped, IsSuffix;
    DroppedExactly(strs, i);
    if strs[i] == strs[j] {
      EarlierOfEqualIsDropped(strs, if i < j then i else j, if i < j then j else i);
    }
  }

  // ----- the data -----

  /** The strings that are emitted among the first n, in their original order. */
  function Data(strs: seq<Text>, dropped: set<nat>, n: nat): Text
    requires n <= |strs|
  {
    if n == 0 then []
    else Data(strs, dropped, n - 1) + if n - 1 in dropped then [] else strs[n - 1] + [0]
  }

  predicate FoundAt(data: Text, s: Text, ofs: nat) {
    ofs + |s| + 1 <= |data| && data[ofs..ofs + |s| + 1] == s + [0]
  }

  lemma {:induction false} EmittedIsFound(strs: seq<Text>, dropped: set<nat>, n: nat, i: nat)
    requires i < n <= |strs| && i !in dropped
    ensures FoundAt(Data(strs, dropped, n), strs[i], |Data(strs, dropped, i)|)
  {
    var data, before, ofs := Data(strs, dropped, n), Data(strs, dropped, n - 1), |Data(strs, dropped, i)|;
    if i < n - 1 {
      EmittedIsFound(strs, dropped, n - 1, i);
      assert data[..|before|] == before;
      assert data[ofs..ofs + |strs[i]| + 1] == before[ofs..ofs + |strs[i]| + 1];
    } else {
      assert data[ofs..ofs + |strs[i]| + 1] == strs[i] + [0];
    }
  }

  lemma TailIsFound(data: Text, s: Text, t: Text, ofs: nat)
    requires FoundAt(data, t, ofs) && IsSuffix(s, t)
    ensures |s| <= |t| && FoundAt(data, s, ofs + (|t| + 1) - (|s| + 1))
  {
    var k := |t| - |s|;
    assert (t + [0])[k..] == s + [0];
    assert data[ofs..ofs + |t| + 1][k..] == data[ofs + k..ofs + |t| + 1];
  }

  lemma SuffixTransitive(a: Text, b: Text, c: Text)
    requires IsSuffix(a, b) && IsSuffix(b, c)
    ensures IsSuffix(a, c)
  {
    assert c[|c| - |b|..][|b| - |a|..] == c[|c| - |a|..];
  }

  // ----- print_merged_strings_in_strdata -----

  /** Every link leads up the sorted order, to a longer string or a duplicate. */
  ghost predicate Links(mapi: map<nat, nat>, strs: seq<Text>, order: seq<nat>) {
    forall i :: i in mapi ==> Link(mapi, strs, order, i)
  }

  ghost predicate Link(mapi: map<nat, nat>, strs: seq<Text>, order: seq<nat>, i: nat)
    requires i in mapi
  {
    && i < |strs| && mapi[i] < |strs| && IsSuffix(strs[i], strs[mapi[i]])
    && i in order && mapi[i] in order && Rank(order, i) < Rank(order, mapi[i])
  }

  ghost function Rank(order: seq<nat>, i: nat): (p: nat)
    requires i in order
    ensures p < |order| && order[p] == i
  {
    var p :| 0 <= p < |order| && order[p] == i;
    p
  }

  lemma RankIs(order: seq<nat>, n: nat, p: nat)
    requires Permutation(order, n) && p < n
    ensures order[p] in order && Rank(order, order[p]) == p
  {
  }

  /** The first loop: links between neighbours. */
  method LinkNeighbours(strs: seq<Text>, order: seq<nat>) returns (mapi: map<nat, nat>)
    requires order == SortedOrder(strs, |strs|) && Permutation(order, |strs|)
    ensures Links(mapi, strs, order) && forall i :: i in mapi <==> IsDropped(strs, i)
  {
    hide SortedOrder, Key;
    mapi := map[];
    var p := 0;
    while p + 1 < |order|
      invariant p <= |order| && (order != [] ==> p < |order|)
      invariant Links(mapi, strs, order)
      invariant forall i :: i in mapi <==> exists q :: 0 <= q < p && order[q] == i && TailOfNext(strs, order, q)
    {
      if IsPrefix(Key(strs[order[p]]), Key(strs[order[p + 1]])) {
        assert TailOfNext(strs, order, p);
        RankIs(order, |strs|, p);
        RankIs(order, |strs|, p + 1);
        PrefixOfKeyIsSuffix(strs[order[p]], strs[order[p + 1]]);
        mapi := mapi[order[p] := order[p + 1]];
      }
      p := p + 1;
    }
  }

  /** The end of the chain that starts at i. */
  method FollowLinks(mapi: map<nat, nat>, strs: seq<Text>, ghost order: seq<nat>, i: nat) returns (j: nat)
    requires Links(mapi, strs, order) && i in mapi && |order| == |strs|
    ensures j !in mapi && j < |strs| && IsSuffix(strs[mapi[i]], strs[j])
    ensures i in order && j in order && Rank(order, i) < Rank(order, j)
  {
    assert Link(mapi, strs, order, i);
    j := mapi[i];
    while j in mapi
      invariant j < |strs| && IsSuffix(strs[mapi[i]], strs[j])
      invariant i in order && j in order && Rank(order, i) < Rank(order, j)
      decreases |order| - Rank(order, j)
    {
      assert Link(mapi, strs, order, j);
      SuffixTransitive(strs[mapi[i]], strs[j], strs[mapi[j]]);
      j := mapi[j];
    }
  }

  /** What the second loop leaves behind for string k: an offset for each emitted string. */
  ghost predicate Placed(strs: seq<Text>, dropped: set<nat>, found: seq<Option<nat>>, sizes: seq<nat>, n: nat) {
    && n <= |strs| && |found| == |sizes| == n
    && (forall k :: 0 <= k < n ==> sizes[k] == |strs[k]| + 1)
    && (forall k :: 0 <= k < n ==> found[k] == if k in dropped then None else Some(|Data(strs, dropped, k)|))
  }

  lemma PlacedNext(strs: seq<Text>, dropped: set<nat>, found: seq<Option<nat>>, sizes: seq<nat>, n: nat)
    requires n < |strs| && Placed(strs, dropped, found, sizes, n)
    ensures var ofs, size := |Data(strs, dropped, n)|, |strs[n]| + 1;
            && Placed(strs, dropped, found + [if n in dropped then None else Some(ofs)], sizes + [size], n + 1)
            && |Data(strs, dropped, n + 1)| == ofs + if n in dropped then 0 else size
  {
    hide Data;
    DataGrows(strs, dropped, n);
  }

  lemma DataGrows(strs: seq<Text>, dropped: set<nat>, n: nat)
    requires n < |strs|
    ensures |Data(strs, dropped, n + 1)| == |Data(strs, dropped, n)| + if n in dropped then 0 else |strs[n]| + 1
  {
  }

  lemma Relinked(mapi: map<nat, nat>, strs: seq<Text>, order: seq<nat>, i: nat, j: nat)
    requires Links(mapi, strs, order) && i in mapi && j < |strs| && IsSuffix(strs[mapi[i]], strs[j])
    requires i in order && j in order && Rank(order, i) < Rank(order, j)
    ensures Links(mapi[i := j], strs, order) && mapi[i := j].Keys == mapi.Keys
  {
    assert Link(mapi, strs, order, i);
    SuffixTransitive(strs[i], strs[mapi[i]], strs[j]);
    forall k | k in mapi ensures Link(mapi[i := j], strs, order, k) {
      assert Link(mapi, strs, order, k);
    }
  }

  /** The second loop: sizes, offsets of the emitted strings, and links shortened to lead to an emitted string. */
  method PlaceEmitted(strs: seq<Text>, links: map<nat, nat>, ghost order: seq<nat>)
      returns (mapi: map<nat, nat>, found: seq<Option<nat>>, sizes: seq<nat>, ofs: nat)
    requires Links(links, strs, order) && |order| == |strs|
    ensures mapi.Keys == links.Keys && Links(mapi, strs, order) && forall k :: k in mapi ==> mapi[k] !in mapi
    ensures Placed(strs, links.Keys, found, sizes, |strs|) && ofs == |Data(strs, links.Keys, |strs|)|
  {
    hide IsSuffix, Data, Links, Link, Placed;
    ghost var dropped := links.Keys;
    mapi, found, sizes, ofs := links, [], [], 0;
    NothingPlaced(strs, dropped);
    var i := 0;
    while i < |strs|
      invariant i <= |strs| && Placed(strs, dropped, found, sizes, i)
      invariant mapi.Keys == dropped && Links(mapi, strs, order)
      invariant forall k :: 0 <= k < i && k in mapi ==> mapi[k] !in mapi
      invariant ofs == |Data(strs, dropped, i)|
    {
      PlacedNext(strs, dropped, found, sizes, i);
      var size := |strs[i]| + 1;
      sizes := sizes + [size];
      if i in mapi {
        var j := FollowLinks(mapi, strs, order, i);
        Relinked(mapi, strs, order, i, j);
        mapi := mapi[i := j];
        found := found + [None];
      } else {
        found := found + [Some(ofs)];
        ofs := ofs + size;
      }
      i := i + 1;
    }
    LinksInRange(mapi, strs, order);
  }

  lemma NothingPlaced(strs: seq<Text>, dropped: set<nat>)
    ensures Placed(strs, dropped, [], [], 0) && |Data(strs, dropped, 0)| == 0
  {
  }

  lemma LinksInRange(mapi: map<nat, nat>, strs: seq<Text>, order: seq<nat>)
    requires Links(mapi, strs, order)
    ensures forall i :: i in mapi ==> i < |strs| && mapi[i] < |strs| && IsSuffix(strs[i], strs[mapi[i]])
  {
    assert forall i :: i in mapi ==> Link(mapi, strs, order, i);
  }

  /**
   * The offsets of all strings in the emitted data, and the total at the end.
   * Each string is found there with its NUL, emitted or not.
   */
  method Merge(strs: seq<Text>) returns (ofss: seq<nat>, mapi: map<nat, nat>)
    ensures forall i :: i in mapi <==> IsDropped(strs, i)
    ensures forall i :: i in mapi ==> i < |strs| && mapi[i] < |strs| && mapi[i] !in mapi
    ensures forall i :: i in mapi ==> IsSuffix(strs[i], strs[mapi[i]])
    ensures |ofss| == |strs| + 1 && ofss[|strs|] == |Data(strs, mapi.Keys, |strs|)|
    ensures forall i :: 0 <= i < |strs| ==> FoundAt(Data(strs, mapi.Keys, |strs|), strs[i], ofss[i])
  {
    hide SortedOrder, IsSuffix, IsDropped, FoundAt, Data, Links;
    var order := SortedOrder(strs, |strs|);
    SortedOrderIsRight(strs, |strs|);
    var links := LinkNeighbours(strs, order);
    var found, sizes, ofs;
    mapi, found, sizes, ofs := PlaceEmitted(strs, links, order);
    LinksInRange(mapi, strs, order);
    ghost var data := Data(strs, mapi.Keys, |strs|);
    ofss := [];
    var i := 0;
    while i < |strs|
      invariant i <= |strs| && |ofss| == i
      invariant forall k :: 0 <= k < i ==> FoundAt(data, strs[k], ofss[k])
    {
      if i in mapi {
        var j := mapi[i];
        EmittedIsFound(strs, mapi.Keys, |strs|, j);
        TailIsFound(data, strs[i], strs[j], found[j].value);
        var at: nat := found[j].value + sizes[j] - sizes[i];
        ofss := ofss + [at];
      } else {
        EmittedIsFound(strs, mapi.Keys, |strs|, i);
        ofss := ofss + [found[i].value];
      }
      i := i + 1;
    }
    ofss := ofss + [ofs];
  }
}
