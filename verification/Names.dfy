/** Byte-string names and the order strcmp puts on them. */
module Names {

  // A C string without its terminator. The terminator compares below every
  // byte of a name, so a proper prefix is the smaller string.
  type Name = string

  /** The sign of strcmp(a, b). */
  function Compare(a: Name, b: Name): (c: int)
    ensures c == 0 <==> a == b
  {
    if a == [] then if b == [] then 0 else -1
    else if b == [] then 1
    else if a[0] < b[0] then -1
    else if a[0] > b[0] then 1
    else
      assert a == [a[0]] + a[1..] && b == [b[0]] + b[1..];
      Compare(a[1..], b[1..])
  }

  predicate Less(a: Name, b: Name) {
    Compare(a, b) < 0
  }

  /** The smaller name ends first, or has the smaller character where they first differ. */
  lemma {:induction false} LessExactly(a: Name, b: Name)
    ensures Less(a, b) <==>
            exists k :: 0 <= k <= |a| && k < |b| && a[..k] == b[..k] && (k == |a| || a[k] < b[k])
  {
    if a != [] && b != [] && a[0] == b[0] {
      LessExactly(a[1..], b[1..]);
      if Less(a, b) {
        var c, d := a[1..], b[1..];
        var k :| 0 <= k <= |c| && k < |d| && c[..k] == d[..k] && (k == |c| || c[k] < d[k]);
        assert a[..k + 1] == [a[0]] + a[1..][..k] && b[..k + 1] == [b[0]] + b[1..][..k];
      }
      if k :| 0 <= k <= |a| && k < |b| && a[..k] == b[..k] && (k == |a| || a[k] < b[k]) {
        assert k > 0;
        assert a[1..][..k - 1] == a[..k][1..] == b[1..][..k - 1];
      }
    } else if b != [] {
      assert a[..0] == b[..0];
      assert forall k :: 0 < k <= |a| && k < |b| ==> a[..k][0] == a[0] && b[..k][0] == b[0];
    }
  }

  lemma {:induction false} CompareAntisymmetric(a: Name, b: Name)
    ensures Compare(a, b) == -Compare(b, a)
  {
    if a != [] && b != [] && a[0] == b[0] {
      CompareAntisymmetric(a[1..], b[1..]);
    }
  }

  lemma {:induction false} LessTransitive(a: Name, b: Name, c: Name)
    requires Less(a, b) && Less(b, c)
    ensures Less(a, c)
  {
    if a != [] && b != [] && c != [] && a[0] == b[0] == c[0] {
      LessTransitive(a[1..], b[1..], c[1..]);
    }
  }

  lemma LessTotal(a: Name, b: Name)
    ensures Less(a, b) || a == b || Less(b, a)
    ensures !(Less(a, b) && Less(b, a))
    ensures !Less(a, a)
  {
    CompareAntisymmetric(a, b);
  }

  lemma {:induction false} CompareCommonPrefix(p: Name, a: Name, b: Name)
    ensures Compare(p + a, p + b) == Compare(a, b)
  {
    if p == [] {
      assert p + a == a && p + b == b;
    } else {
      assert (p + a)[1..] == p[1..] + a && (p + b)[1..] == p[1..] + b;
      CompareCommonPrefix(p[1..], a, b);
    }
  }

  /** my_strcatcmp_far: compares prefix + name with s2 without building the concatenation. */
  method CompareCat(prefix: Name, name: Name, s2: Name) returns (c: int)
    ensures c == Compare(prefix + name, s2)
  {
    var i := 0;
    assert (prefix + name)[0..] == prefix + name;
    while i < |prefix|
      invariant i <= |prefix| && i <= |s2|
      invariant Compare((prefix + name)[i..], s2[i..]) == Compare(prefix + name, s2)
    {
      if i == |s2| { return 1; }
      if prefix[i] != s2[i] { return if prefix[i] < s2[i] then -1 else 1; }
      assert (prefix + name)[i..][1..] == (prefix + name)[i + 1..] && s2[i..][1..] == s2[i + 1..];
      i := i + 1;
    }
    assert (prefix + name)[i..] == name;
    c := Compare(name, s2[i..]);
  }
}
