/** Byte-wise lexicographic order of byte strings, the order `bytes.Compare`
    puts storage keys in. */
module ByteOrder {
  import opened Common

  /** `a` sorts strictly before `b`. */
  predicate LexLess(a: seq<byte>, b: seq<byte>)
    ensures |a| == 0 ==> (LexLess(a, b) <==> |b| > 0)
    ensures LexLess(a, b) && |a| > 0 && |b| > 0 ==> a[0] <= b[0]
    decreases |a|
  {
    if |a| == 0 then |b| > 0
    else if |b| == 0 then false
    else if a[0] != b[0] then a[0] < b[0]
    else LexLess(a[1..], b[1..])
  }

  lemma {:induction false} LexLessIrreflexive(a: seq<byte>)
    ensures !LexLess(a, a)
    decreases |a|
  {
    if |a| > 0 {
      LexLessIrreflexive(a[1..]);
    }
  }

  lemma {:induction false} LexLessAsymmetric(a: seq<byte>, b: seq<byte>)
    requires LexLess(a, b)
    ensures !LexLess(b, a)
    decreases |a|
  {
    if |a| > 0 && |b| > 0 && a[0] == b[0] {
      LexLessAsymmetric(a[1..], b[1..]);
    }
  }

  lemma {:induction false} LexLessTransitive(a: seq<byte>, b: seq<byte>, c: seq<byte>)
    requires LexLess(a, b) && LexLess(b, c)
    ensures LexLess(a, c)
    decreases |a|
  {
    if |a| > 0 && a[0] == b[0] && b[0] == c[0] {
      LexLessTransitive(a[1..], b[1..], c[1..]);
    }
  }

  /** A common prefix does not change the order. */
  lemma {:induction false} LexLessCommonPrefix(p: seq<byte>, a: seq<byte>, b: seq<byte>)
    ensures LexLess(p + a, p + b) <==> LexLess(a, b)
    decreases |p|
  {
    if |p| > 0 {
      assert (p + a)[0] == (p + b)[0];
      assert (p + a)[1..] == p[1..] + a;
      assert (p + b)[1..] == p[1..] + b;
      assert LexLess(p + a, p + b) == LexLess(p[1..] + a, p[1..] + b);
      LexLessCommonPrefix(p[1..], a, b);
    } else {
      assert p + a == a && p + b == b;
    }
  }

  /** Between strings of equal length, whatever follows them does not change the order. */
  lemma {:induction false} LexLessEqualLengthExtend(a: seq<byte>, b: seq<byte>, x: seq<byte>, y: seq<byte>)
    requires |a| == |b| && LexLess(a, b)
    ensures LexLess(a + x, b + y)
    decreases |a|
  {
    if a[0] == b[0] {
      assert (a + x)[1..] == a[1..] + x;
      assert (b + y)[1..] == b[1..] + y;
      LexLessEqualLengthExtend(a[1..], b[1..], x, y);
    }
  }

  /** Any two different strings are ordered one way or the other. */
  lemma {:induction false} LexLessTotal(a: seq<byte>, b: seq<byte>)
    ensures a == b || LexLess(a, b) || LexLess(b, a)
    decreases |a|
  {
    if |a| > 0 && |b| > 0 && a[0] == b[0] {
      LexLessTotal(a[1..], b[1..]);
      if a[1..] == b[1..] {
        assert a == [a[0]] + a[1..] && b == [b[0]] + b[1..];
      }
    }
  }

  /** Two different strings of equal length decide the order of whatever
      starts with them. */
  lemma {:induction false} LexLessDecided(a: seq<byte>, b: seq<byte>, x: seq<byte>, y: seq<byte>)
    requires |a| == |b| && a != b
    ensures LexLess(a + x, b + y) <==> LexLess(a, b)
    decreases |a|
  {
    if a[0] == b[0] {
      assert (a + x)[1..] == a[1..] + x;
      assert (b + y)[1..] == b[1..] + y;
      assert a == [a[0]] + a[1..] && b == [b[0]] + b[1..];
      LexLessDecided(a[1..], b[1..], x, y);
    }
  }

  /** An extension never sorts before the string it extends. */
  lemma LexLessNotBeforePrefix(a: seq<byte>, x: seq<byte>)
    ensures !LexLess(a + x, a)
  {
    LexLessCommonPrefix(a, x, []);
    assert a + [] == a;
  }

  /** A proper prefix sorts first. */
  lemma {:induction false} LexLessProperPrefix(a: seq<byte>, x: seq<byte>)
    requires |x| > 0
    ensures LexLess(a, a + x)
    decreases |a|
  {
    if |a| > 0 {
      assert (a + x)[1..] == a[1..] + x;
      LexLessProperPrefix(a[1..], x);
    }
  }
}
