/** Byte strings under the lexicographic order in which bbolt keeps its keys and
    in which Go compares strings. */
module Keys {
  type Byte = b: int | 0 <= b < 256
  type Key = seq<Byte>

  /** The strict order of `bytes.Compare`: a proper prefix sorts first. */
  predicate Less(a: Key, b: Key) {
    LessFrom(a, b, 0)
  }

  predicate LessFrom(a: Key, b: Key, i: nat)
    decreases |b| - i
  {
    i < |b| && (i >= |a| || a[i] < b[i] || (a[i] == b[i] && LessFrom(a, b, i + 1)))
  }

  /** What the order means: `b` is a proper extension of `a`, or the first
      differing byte is smaller in `a`. */
  ghost predicate Differs(a: Key, b: Key, n: nat) {
    n < |b| && n <= |a| && a[..n] == b[..n] && (n == |a| || a[n] < b[n])
  }

  lemma {:induction false} LessFromMeans(a: Key, b: Key, i: nat)
    requires i <= |a| && i <= |b| && a[..i] == b[..i]
    ensures LessFrom(a, b, i) <==> exists n :: i <= n && Differs(a, b, n)
    decreases |b| - i
  {
    if i < |b| && i < |a| {
      forall n | n > i && Differs(a, b, n) ensures a[i] == b[i] {
        assert a[..n][i] == b[..n][i];
      }
      if a[i] == b[i] {
        assert a[..i + 1] == a[..i] + [a[i]] && b[..i + 1] == b[..i] + [b[i]];
        LessFromMeans(a, b, i + 1);
      } else if a[i] < b[i] {
        assert Differs(a, b, i);
      }
    } else if i < |b| {
      assert Differs(a, b, i);
    }
  }

  lemma LessMeans(a: Key, b: Key)
    ensures Less(a, b) <==> exists n :: Differs(a, b, n)
  {
    LessFromMeans(a, b, 0);
  }

  /** Two different strings differ somewhere: the length of their common prefix. */
  lemma {:induction false} FirstDifference(a: Key, b: Key, i: nat) returns (n: nat)
    requires i <= |a| && i <= |b| && a[..i] == b[..i]
    ensures n <= |a| && n <= |b| && a[..n] == b[..n]
    ensures n == |a| || n == |b| || a[n] != b[n]
    decreases |a| - i
  {
    if i < |a| && i < |b| && a[i] == b[i] {
      assert a[..i + 1] == a[..i] + [a[i]] && b[..i + 1] == b[..i] + [b[i]];
      n := FirstDifference(a, b, i + 1);
    } else {
      n := i;
    }
  }

  lemma {:induction false} IrreflexiveFrom(a: Key, i: nat)
    ensures !LessFrom(a, a, i)
    decreases |a| - i
  {
    if i < |a| {
      IrreflexiveFrom(a, i + 1);
    }
  }

  lemma LessIrreflexive(a: Key)
    ensures !Less(a, a)
  {
    IrreflexiveFrom(a, 0);
  }

  lemma {:induction false} TransitiveFrom(a: Key, b: Key, c: Key, i: nat)
    requires LessFrom(a, b, i) && LessFrom(b, c, i)
    ensures LessFrom(a, c, i)
    decreases |b| - i
  {
    if i < |a| && a[i] == b[i] == c[i] {
      TransitiveFrom(a, b, c, i + 1);
    }
  }

  lemma LessTransitive(a: Key, b: Key, c: Key)
    requires Less(a, b) && Less(b, c)
    ensures Less(a, c)
  {
    TransitiveFrom(a, b, c, 0);
  }

  lemma LessTotal(a: Key, b: Key)
    ensures Less(a, b) || a == b || Less(b, a)
  {
    var n := FirstDifference(a, b, 0);
    if n < |b| && (n == |a| || a[n] < b[n]) {
      assert Differs(a, b, n);
      LessMeans(a, b);
    } else if n < |a| {
      assert Differs(b, a, n);
      LessMeans(b, a);
    } else {
      assert a == a[..n] && b == b[..n];
    }
  }

  lemma LessAsymmetric(a: Key, b: Key)
    requires Less(a, b)
    ensures !Less(b, a) && a != b
  {
    LessIrreflexive(a);
    if Less(b, a) {
      LessTransitive(a, b, a);
    }
  }

  /** `a <= b < c` in the lexicographic order gives `a < c`. */
  lemma NotAboveThenBelow(a: Key, b: Key, c: Key)
    requires !Less(b, a) && Less(b, c)
    ensures Less(a, c)
  {
    LessTotal(a, b);
    if a != b {
      LessTransitive(a, b, c);
    }
  }

  /** `a < b <= c` gives `a < c`. */
  lemma BelowThenNotAbove(a: Key, b: Key, c: Key)
    requires Less(a, b) && !Less(c, b)
    ensures Less(a, c)
  {
    LessTotal(b, c);
    if b != c {
      LessTransitive(a, b, c);
    }
  }

  lemma {:induction false} ShiftFrom(p: Key, a: Key, b: Key, i: nat)
    ensures LessFrom(p + a, p + b, |p| + i) == LessFrom(a, b, i)
    decreases |b| - i
  {
    if i < |b| && i < |a| {
      ShiftFrom(p, a, b, i + 1);
    }
  }

  lemma {:induction false} SkipCommon(p: Key, a: Key, b: Key, i: nat)
    requires i <= |p|
    ensures LessFrom(p + a, p + b, i) == LessFrom(p + a, p + b, |p|)
    decreases |p| - i
  {
    if i < |p| {
      SkipCommon(p, a, b, i + 1);
    }
  }

  /** A common prefix does not change how two strings compare. */
  lemma PrefixCancels(p: Key, a: Key, b: Key)
    ensures Less(p + a, p + b) == Less(a, b)
  {
    SkipCommon(p, a, b, 0);
    ShiftFrom(p, a, b, 0);
  }

  /** No string is below one of its prefixes. */
  lemma PrefixNotAbove(p: Key, k: Key)
    requires p <= k
    ensures !Less(k, p)
    ensures p != k ==> Less(p, k)
  {
    assert k == p + k[|p|..] && p == p + [];
    PrefixCancels(p, k[|p|..], []);
    PrefixCancels(p, [], k[|p|..]);
  }

  /** The strings that extend `p` are an interval of the order. */
  lemma PrefixIsConvex(p: Key, a: Key, b: Key, c: Key)
    requires p <= a && p <= c
    requires !Less(b, a) && !Less(c, b)
    ensures p <= b
  {
    var n := FirstDifference(p, b, 0);
    if n < |p| {
      assert a[..n] == p[..n] == c[..n] && a[n] == p[n] == c[n];
      if n == |b| || b[n] < p[n] {
        assert Differs(b, a, n);
        LessMeans(b, a);
      } else {
        assert Differs(c, b, n);
        LessMeans(c, b);
      }
    } else {
      assert p == p[..n] == b[..n];
    }
  }

  /** `a + "\x00"` is the immediate successor of `a`. */
  lemma SuccessorIsNext(a: Key, b: Key)
    ensures Less(a, b) <==> !Less(b, a + [0])
  {
    var s := a + [0];
    PrefixNotAbove(a, s);
    if Less(a, b) && Less(b, s) {
      LessAsymmetric(a, b);
      LessAsymmetric(b, s);
      PrefixIsConvex(a, a, b, s);
      assert b == a + b[|a|..];
      PrefixCancels(a, b[|a|..], [0]);
    }
    if !Less(a, b) && !Less(b, s) {
      NotAboveThenBelow(b, a, s);
    }
  }

  /** `p + "\xff"` lies above every extension of `p` whose next byte is not
      0xFF, and at or below every greater string that does not extend `p`. */
  lemma SkipsSubtree(p: Key, k: Key)
    ensures p <= k && (|k| == |p| || k[|p|] != 255) ==> Less(k, p + [255])
    ensures p <= k && |k| > |p| && k[|p|] == 255 ==> !Less(k, p + [255])
    ensures !(p <= k) && Less(p, k) ==> !Less(k, p + [255])
  {
    if p <= k {
      assert k == p + k[|p|..];
      PrefixCancels(p, k[|p|..], [255]);
    } else if Less(p, k) && Less(k, p + [255]) {
      LessAsymmetric(p, k);
      LessAsymmetric(k, p + [255]);
      PrefixIsConvex(p, p, k, p + [255]);
    }
  }

  /** `strings.Index`: the first place where `sub` occurs in `s`, or -1. */
  function IndexOf(s: Key, sub: Key): (r: int)
    ensures -1 <= r && (r != -1 ==> r + |sub| <= |s|)
  {
    IndexFrom(s, sub, 0)
  }

  predicate At(s: Key, sub: Key, i: nat) {
    i + |sub| <= |s| && s[i..i + |sub|] == sub
  }

  function IndexFrom(s: Key, sub: Key, i: nat): (r: int)
    ensures r == -1 || i <= r <= r + |sub| <= |s|
    decreases |s| - i
  {
    if i + |sub| > |s| then -1
    else if At(s, sub, i) then i
    else IndexFrom(s, sub, i + 1)
  }

  lemma {:induction false} IndexFromIsFirst(s: Key, sub: Key, i: nat)
    ensures var r := IndexFrom(s, sub, i);
            && (r != -1 ==> At(s, sub, r))
            && forall j :: i <= j && (r == -1 || j < r) ==> !At(s, sub, j)
    decreases |s| - i
  {
    if i + |sub| <= |s| && !At(s, sub, i) {
      IndexFromIsFirst(s, sub, i + 1);
    }
  }

  lemma AtSurvives(s: Key, t: Key, sub: Key, n: nat, i: nat)
    requires n <= |s| && s[..n] <= t && i + |sub| <= n
    ensures At(s, sub, i) <==> At(t, sub, i)
  {
    assert s[i..i + |sub|] == s[..n][i..i + |sub|];
    assert t[i..i + |sub|] == t[..n][i..i + |sub|];
    assert t[..n] == s[..n];
  }

  /** The first occurrence survives a change of everything behind it. */
  lemma IndexOfPrefix(s: Key, t: Key, sub: Key, n: nat)
    requires IndexOf(s, sub) >= 0
    requires n == IndexOf(s, sub) + |sub| && s[..n] <= t
    ensures IndexOf(t, sub) == IndexOf(s, sub)
  {
    var r, q := IndexOf(s, sub), IndexOf(t, sub);
    IndexFromIsFirst(s, sub, 0);
    IndexFromIsFirst(t, sub, 0);
    AtSurvives(s, t, sub, n, r);
    assert 0 <= q <= r;
    if q < r {
      AtSurvives(s, t, sub, n, q);
    }
  }
}
