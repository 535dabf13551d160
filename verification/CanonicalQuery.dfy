/** The canonical query string of a signed request (`getCanonicalQueryString`) and
    its percent-encoding (RFC 3986, sections 2.1 and 2.3). */
module CanonicalQuery {
  import opened Keys
  import opened Sequences
  import opened Records

  const AMPERSAND: Byte := 38
  const EQUALS: Byte := 61
  const PERCENT: Byte := 37

  // ----- percent-encoding -----

  predicate Unreserved(c: Byte) {
    97 <= c <= 122 || 65 <= c <= 90 || 48 <= c <= 57 || c == 95 || c == 45 || c == 126 || c == 46
  }

  function UpperHexDigit(v: nat): Byte
    requires v < 16
  {
    if v < 10 then 48 + v else 55 + v
  }

  function EncodeByte(c: Byte): Key {
    if Unreserved(c) then [c] else [PERCENT, UpperHexDigit(c / 16), UpperHexDigit(c % 16)]
  }

  function Encode(s: Key): Key {
    if s == [] then [] else EncodeByte(s[0]) + Encode(s[1..])
  }

  lemma EncodeMoves(buf: Key, s: Key, i: nat)
    requires i < |s|
    ensures buf + Encode(s[i..]) == (buf + EncodeByte(s[i])) + Encode(s[i + 1..])
  {
    assert s[i..][0] == s[i] && s[i..][1..] == s[i + 1..];
    assert buf + (EncodeByte(s[i]) + Encode(s[i + 1..])) == (buf + EncodeByte(s[i])) + Encode(s[i + 1..]);
  }

  method AwsPercentEncode(s: Key) returns (buf: Key)
    ensures buf == Encode(s)
  {
    buf := [];
    assert s[0..] == s;
    for i := 0 to |s|
      invariant Encode(s) == buf + Encode(s[i..])
    {
      EncodeMoves(buf, s, i);
      var c := s[i];
      if Unreserved(c) {
        buf := buf + [c];
      } else {
        buf := buf + [PERCENT, UpperHexDigit(c / 16), UpperHexDigit(c % 16)];
      }
    }
  }

  function DigitValue(c: Byte): Option<nat> {
    if 48 <= c <= 57 then Some(c - 48) else if 65 <= c <= 70 then Some(c - 55) else None
  }

  /** What a reader of the encoding does. */
  function Decode(s: Key): Option<Key> {
    if s == [] then Some([])
    else if s[0] != PERCENT then
      match Decode(s[1..])
      case None => None
      case Some(rest) => Some([s[0]] + rest)
    else if |s| < 3 || DigitValue(s[1]).None? || DigitValue(s[2]).None? then None
    else
      match Decode(s[3..])
      case None => None
      case Some(rest) => Some([16 * DigitValue(s[1]).value + DigitValue(s[2]).value] + rest)
  }

  /** Decoding undoes encoding, and no encoded text holds a separator. */
  lemma {:induction false} EncodeIsReadable(s: Key)
    ensures Decode(Encode(s)) == Some(s)
    ensures AMPERSAND !in Encode(s) && EQUALS !in Encode(s)
  {
    if s != [] {
      EncodeIsReadable(s[1..]);
      var e, rest := Encode(s), Encode(s[1..]);
      assert s == [s[0]] + s[1..];
      if Unreserved(s[0]) {
        assert e[1..] == rest;
      } else {
        assert e[3..] == rest;
        assert 16 * (s[0] / 16) + s[0] % 16 == s[0];
      }
    }
  }

  /** Letters, digits and "-_.~". */
  predicate StandsForItself(c: Byte) {
    || 'a' as int <= c <= 'z' as int || 'A' as int <= c <= 'Z' as int || '0' as int <= c <= '9' as int
    || c == '-' as int || c == '_' as int || c == '.' as int || c == '~' as int
  }

  const HEX: string := "0123456789ABCDEF"

  /** Such a byte stands for itself, and any other is '%' and two upper-case hexadecimal
      digits; a text is encoded byte by byte. */
  lemma EncodeMeans(c: Byte)
    ensures Encode([c]) == if StandsForItself(c) then [c] else ['%' as int, HEX[c / 16] as int, HEX[c % 16] as int]
  {
    assert [c][1..] == [];
    HexDigitsAre(c / 16);
    HexDigitsAre(c % 16);
  }

  lemma HexDigitsAre(v: nat)
    requires v < 16
    ensures HEX[v] as int == UpperHexDigit(v)
  {
  }

  lemma {:induction false} EncodeJoins(s: Key, t: Key)
    ensures Encode(s + t) == Encode(s) + Encode(t)
  {
    if s == [] {
      assert s + t == t;
    } else {
      assert (s + t)[1..] == s[1..] + t;
      EncodeJoins(s[1..], t);
    }
  }

  // ----- the canonical string -----

  type Pair = (Key, Key)
  type Values = map<Key, seq<Key>>

  function ValuesOf(values: Values, k: Key): seq<Key> {
    if k in values then values[k] else []
  }

  function Render(p: Pair): Key {
    Encode(p.0) + [EQUALS] + Encode(p.1)
  }

  /** `strings.Join` of the rendered pairs at '&'. */
  function Join(pairs: seq<Pair>): Key {
    if pairs == [] then []
    else if |pairs| == 1 then Render(pairs[0])
    else Render(pairs[0]) + [AMPERSAND] + Join(pairs[1..])
  }

  predicate PairLess(p: Pair, q: Pair) {
    Less(p.0, q.0) || (p.0 == q.0 && Less(p.1, q.1))
  }

  predicate SortedPairs(pairs: seq<Pair>) {
    forall i, j :: 0 <= i < j < |pairs| ==> !PairLess(pairs[j], pairs[i])
  }

  /** The pairs are those of the query, each as often as there. */
  ghost predicate Carries(pairs: seq<Pair>, values: Values) {
    forall k, v :: multiset(pairs)[(k, v)] == multiset(ValuesOf(values, k))[v]
  }

  ghost predicate IsCanonical(values: Values, text: Key) {
    exists pairs :: SortedPairs(pairs) && Carries(pairs, values) && text == Join(pairs)
  }

  predicate SortedStrings(xs: seq<Key>) {
    forall i, j :: 0 <= i < j < |xs| ==> !Less(xs[j], xs[i])
  }

  function Insert(x: Key, xs: seq<Key>): seq<Key> {
    if xs == [] || !Less(xs[0], x) then [x] + xs else [xs[0]] + Insert(x, xs[1..])
  }

  /** `sort.Strings`. */
  function SortStrings(xs: seq<Key>): seq<Key> {
    if xs == [] then [] else Insert(xs[0], SortStrings(xs[1..]))
  }

  lemma {:induction false} InsertAddsOne(x: Key, xs: seq<Key>)
    ensures multiset(Insert(x, xs)) == multiset{x} + multiset(xs)
  {
    if xs != [] && Less(xs[0], x) {
      InsertAddsOne(x, xs[1..]);
      InsertedBehindFirst(x, xs, Insert(x, xs[1..]));
    }
  }

  lemma {:induction false} InsertKeepsOrder(x: Key, xs: seq<Key>)
    requires SortedStrings(xs)
    ensures SortedStrings(Insert(x, xs))
  {
    if xs != [] && Less(xs[0], x) {
      InsertKeepsOrder(x, xs[1..]);
      LessAsymmetric(xs[0], x);
      FromInserted(x, xs[1..]);
      PutInFront(xs[0], Insert(x, xs[1..]));
    } else {
      forall i | 0 <= i < |xs| ensures !Less(xs[i], x) {
        if Less(xs[i], x) && i > 0 { NotAboveThenBelow(xs[0], xs[i], x); }
      }
      PutInFront(x, xs);
    }
  }

  lemma FromInserted(x: Key, xs: seq<Key>)
    ensures forall y :: y in Insert(x, xs) ==> y == x || y in xs
  {
    InsertAddsOne(x, xs);
    forall y | y in Insert(x, xs) ensures y == x || y in xs {
      assert y in multiset(Insert(x, xs));
    }
  }

  lemma PutInFront(x: Key, xs: seq<Key>)
    requires SortedStrings(xs) && forall y :: y in xs ==> !Less(y, x)
    ensures SortedStrings([x] + xs)
  {
  }

  lemma {:induction false} SortSorts(xs: seq<Key>)
    ensures SortedStrings(SortStrings(xs)) && multiset(SortStrings(xs)) == multiset(xs)
  {
    if xs != [] {
      SortSorts(xs[1..]);
      InsertKeepsOrder(xs[0], SortStrings(xs[1..]));
      InsertAddsOne(xs[0], SortStrings(xs[1..]));
      assert xs == [xs[0]] + xs[1..];
    }
  }

  function PairUp(k: Key, vs: seq<Key>): seq<Pair> {
    seq(|vs|, i requires 0 <= i < |vs| => (k, vs[i]))
  }

  /** The pairs of these keys in this order, values sorted. */
  function AllPairs(values: Values, keys: seq<Key>): seq<Pair> {
    if keys == [] then [] else PairUp(keys[0], SortStrings(ValuesOf(values, keys[0]))) + AllPairs(values, keys[1..])
  }

  method GetCanonicalQueryString(values: Values) returns (text: Key)
    ensures IsCanonical(values, text)
  {
    if |values| == 0 {
      EmptyIsCanonical(values);
      return [];
    }
    var keys := [];
    var rest := values.Keys;
    while rest != {}
      invariant rest <= values.Keys && DistinctStrings(keys)
      invariant forall k :: k in keys <==> k in values && k !in rest
      decreases |rest|
    {
      var k :| k in rest;
      keys, rest := keys + [k], rest - {k};
    }
    var sorted := SortStrings(keys);
    var pairs := CollectPairs(values, sorted);
    SortedKeysAscend(keys);
    AllPairsCarry(values, sorted);
    text := JoinPairs(pairs);
  }

  method CollectPairs(values: Values, keys: seq<Key>) returns (pairs: seq<Pair>)
    ensures pairs == AllPairs(values, keys)
  {
    pairs := [];
    assert keys[0..] == keys;
    for i := 0 to |keys|
      invariant AllPairs(values, keys) == pairs + AllPairs(values, keys[i..])
    {
      AllPairsMove(pairs, values, keys, i);
      pairs := AppendValues(pairs, keys[i], SortStrings(ValuesOf(values, keys[i])));
    }
  }

  method AppendValues(before: seq<Pair>, k: Key, vs: seq<Key>) returns (pairs: seq<Pair>)
    ensures pairs == before + PairUp(k, vs)
  {
    pairs := before;
    for j := 0 to |vs|
      invariant pairs == before + PairUp(k, vs)[..j]
    {
      pairs := pairs + [(k, vs[j])];
    }
  }

  lemma AllPairsMove(pairs: seq<Pair>, values: Values, keys: seq<Key>, i: nat)
    requires i < |keys|
    ensures pairs + AllPairs(values, keys[i..])
            == pairs + PairUp(keys[i], SortStrings(ValuesOf(values, keys[i]))) + AllPairs(values, keys[i + 1..])
  {
    assert keys[i..][0] == keys[i] && keys[i..][1..] == keys[i + 1..];
  }

  method JoinPairs(pairs: seq<Pair>) returns (text: Key)
    ensures text == Join(pairs)
  {
    text := [];
    var i := |pairs|;
    while i > 0
      invariant 0 <= i <= |pairs| && text == Join(pairs[i..])
    {
      i := i - 1;
      var name := AwsPercentEncode(pairs[i].0);
      var value := AwsPercentEncode(pairs[i].1);
      assert pairs[i..][0] == pairs[i] && pairs[i..][1..] == pairs[i + 1..];
      text := if i == |pairs| - 1 then name + [EQUALS] + value else name + [EQUALS] + value + [AMPERSAND] + text;
    }
    assert pairs[0..] == pairs;
  }

  // ----- the string is canonical -----

  lemma EmptyIsCanonical(values: Values)
    requires |values| == 0
    ensures IsCanonical(values, [])
  {
    assert values.Keys == {};
    var none: seq<Pair> := [];
    forall k, v ensures multiset(none)[(k, v)] == multiset(ValuesOf(values, k))[v] {
      assert k !in values.Keys;
    }
    assert SortedPairs(none) && Carries(none, values) && [] == Join(none);
  }

  predicate DistinctStrings(xs: seq<Key>) {
    forall i, j :: 0 <= i < j < |xs| ==> xs[i] != xs[j]
  }

  predicate Ascending(xs: seq<Key>) {
    forall i, j :: 0 <= i < j < |xs| ==> Less(xs[i], xs[j])
  }

  lemma {:induction false} CountsOne(xs: seq<Key>, x: Key)
    requires DistinctStrings(xs)
    ensures multiset(xs)[x] == if x in xs then 1 else 0
  {
    if xs != [] {
      CountsOne(xs[1..], x);
      assert xs == [xs[0]] + xs[1..];
      forall y | y in xs[1..] ensures y != xs[0] {
        var j :| 0 <= j < |xs[1..]| && xs[1..][j] == y;
        assert xs[j + 1] == y;
      }
    }
  }

  lemma SortedKeysAscend(keys: seq<Key>)
    requires DistinctStrings(keys)
    ensures Ascending(SortStrings(keys)) && forall k :: k in SortStrings(keys) <==> k in keys
  {
    var t := SortStrings(keys);
    SortSorts(keys);
    forall k ensures k in t <==> k in keys {
      assert k in t <==> k in multiset(t);
      assert k in keys <==> k in multiset(keys);
    }
    forall i, j | 0 <= i < j < |t| ensures Less(t[i], t[j]) {
      LessTotal(t[i], t[j]);
      CountsOne(keys, t[i]);
      if t[i] == t[j] {
        CountsTwo(t, i, j);
      }
    }
  }

  lemma CountsTwo(t: seq<Key>, i: nat, j: nat)
    requires i < j < |t| && t[i] == t[j]
    ensures multiset(t)[t[i]] >= 2
  {
    assert t == t[..j] + [t[j]] + t[j + 1..];
    assert t[i] in t[..j];
  }

  lemma {:induction false} PairUpCounts(k: Key, vs: seq<Key>, p: Pair)
    ensures multiset(PairUp(k, vs))[p] == if p.0 == k then multiset(vs)[p.1] else 0
  {
    if vs != [] {
      PairUpCounts(k, vs[1..], p);
      assert vs == [vs[0]] + vs[1..];
      assert PairUp(k, vs) == [(k, vs[0])] + PairUp(k, vs[1..]);
    }
  }

  lemma {:induction false} AllPairsCount(values: Values, keys: seq<Key>, p: Pair)
    requires Ascending(keys)
    ensures multiset(AllPairs(values, keys))[p] == if p.0 in keys then multiset(ValuesOf(values, p.0))[p.1] else 0
    ensures p in AllPairs(values, keys) ==> p.0 in keys
  {
    if keys != [] {
      var vs := SortStrings(ValuesOf(values, keys[0]));
      SortSorts(ValuesOf(values, keys[0]));
      PairUpCounts(keys[0], vs, p);
      AllPairsCount(values, keys[1..], p);
      assert keys == [keys[0]] + keys[1..];
      assert p in AllPairs(values, keys) ==> p in multiset(AllPairs(values, keys));
      if keys[0] in keys[1..] {
        var j :| 0 <= j < |keys[1..]| && keys[1..][j] == keys[0];
        LessIrreflexive(keys[0]);
        assert Less(keys[0], keys[j + 1]);
      }
    }
  }

  lemma {:induction false} AllPairsSorted(values: Values, keys: seq<Key>)
    requires Ascending(keys)
    ensures SortedPairs(AllPairs(values, keys))
  {
    if keys != [] {
      var vs := SortStrings(ValuesOf(values, keys[0]));
      SortSorts(ValuesOf(values, keys[0]));
      AllPairsSorted(values, keys[1..]);
      var front, rest := PairUp(keys[0], vs), AllPairs(values, keys[1..]);
      forall q | q in rest ensures Less(keys[0], q.0) {
        AllPairsCount(values, keys[1..], q);
        var j :| 0 <= j < |keys[1..]| && keys[1..][j] == q.0;
        assert Less(keys[0], keys[j + 1]);
      }
      LessIrreflexive(keys[0]);
      JoinSorted(front, rest, keys[0]);
    }
  }

  lemma JoinSorted(front: seq<Pair>, rest: seq<Pair>, k: Key)
    requires SortedPairs(front) && SortedPairs(rest)
    requires (forall p :: p in front ==> p.0 == k) && (forall q :: q in rest ==> Less(k, q.0))
    ensures SortedPairs(front + rest)
  {
    forall i, j | 0 <= i < j < |front + rest| ensures !PairLess((front + rest)[j], (front + rest)[i]) {
      if i < |front| <= j {
        assert front[i] in front && rest[j - |front|] in rest;
        LessAsymmetric(k, rest[j - |front|].0);
      }
    }
  }

  lemma AllPairsCarry(values: Values, keys: seq<Key>)
    requires Ascending(keys) && forall k :: k in keys <==> k in values
    ensures IsCanonical(values, Join(AllPairs(values, keys)))
  {
    AllPairsSorted(values, keys);
    forall k, v ensures multiset(AllPairs(values, keys))[(k, v)] == multiset(ValuesOf(values, k))[v] {
      AllPairsCount(values, keys, (k, v));
    }
  }

  // ----- the string determines the query, and is determined by it -----

  /** Two sorted lists of the same pairs are the same list. */
  lemma {:induction false} SortedPairsUnique(a: seq<Pair>, b: seq<Pair>)
    requires SortedPairs(a) && SortedPairs(b) && multiset(a) == multiset(b)
    ensures a == b
  {
    if a == [] {
      assert |multiset(b)| == 0;
    } else {
      assert |multiset(a)| == |multiset(b)|;
      SameHead(a, b);
      TailCounts(a);
      TailCounts(b);
      SortedPairsUnique(a[1..], b[1..]);
      assert a == [a[0]] + a[1..] && b == [b[0]] + b[1..];
    }
  }

  lemma TailCounts(a: seq<Pair>)
    requires a != []
    ensures multiset(a[1..]) == multiset(a) - multiset{a[0]}
  {
    assert a == [a[0]] + a[1..];
  }

  lemma SameHead(a: seq<Pair>, b: seq<Pair>)
    requires SortedPairs(a) && SortedPairs(b) && multiset(a) == multiset(b) && a != [] && b != []
    ensures a[0] == b[0]
  {
    assert a[0] in multiset(b) && b[0] in multiset(a);
    HeadIsLeast(a, b[0]);
    HeadIsLeast(b, a[0]);
    LessTotal(a[0].0, b[0].0);
    LessTotal(a[0].1, b[0].1);
  }

  lemma HeadIsLeast(a: seq<Pair>, p: Pair)
    requires SortedPairs(a) && p in a
    ensures !PairLess(p, a[0])
  {
    var i :| 0 <= i < |a| && a[i] == p;
    LessIrreflexive(p.0);
    LessIrreflexive(p.1);
  }

  /** The part of `s` up to the first `sep`. */
  function Upto(s: Key, sep: Byte): Key {
    if s == [] || s[0] == sep then [] else [s[0]] + Upto(s[1..], sep)
  }

  lemma {:induction false} UptoSeparator(a: Key, sep: Byte, rest: Key)
    requires sep !in a
    ensures Upto(a + [sep] + rest, sep) == a && Upto(a, sep) == a
  {
    if a == [] {
      assert a + [sep] + rest == [sep] + rest;
    } else {
      assert (a + [sep] + rest)[1..] == a[1..] + [sep] + rest;
      UptoSeparator(a[1..], sep, rest);
    }
  }

  lemma RenderIsPlain(p: Pair)
    ensures AMPERSAND !in Render(p) && Render(p) != [] && Upto(Render(p), EQUALS) == Encode(p.0)
  {
    EncodeIsReadable(p.0);
    EncodeIsReadable(p.1);
    UptoSeparator(Encode(p.0), EQUALS, Encode(p.1));
  }

  lemma RenderIsInjective(p: Pair, q: Pair)
    requires Render(p) == Render(q)
    ensures p == q
  {
    RenderIsPlain(p);
    RenderIsPlain(q);
    var n := |Encode(p.0)|;
    assert Render(p)[n + 1..] == Encode(p.1) && Render(q)[n + 1..] == Encode(q.1);
    EncodeIsReadable(p.0);
    EncodeIsReadable(q.0);
    EncodeIsReadable(p.1);
    EncodeIsReadable(q.1);
  }

  lemma JoinHead(ps: seq<Pair>)
    requires ps != []
    ensures Upto(Join(ps), AMPERSAND) == Render(ps[0]) && Join(ps) != []
    ensures |ps| == 1 <==> |Join(ps)| == |Render(ps[0])|
    ensures |ps| > 1 ==> Join(ps)[|Render(ps[0])| + 1..] == Join(ps[1..])
  {
    RenderIsPlain(ps[0]);
    UptoSeparator(Render(ps[0]), AMPERSAND, if |ps| > 1 then Join(ps[1..]) else []);
  }

  /** The string parses back to the pairs. */
  lemma {:induction false} JoinIsInjective(ps: seq<Pair>, qs: seq<Pair>)
    requires Join(ps) == Join(qs)
    ensures ps == qs
    decreases |ps|
  {
    if ps == [] || qs == [] {
      if ps != [] { JoinHead(ps); }
      if qs != [] { JoinHead(qs); }
    } else {
      JoinHead(ps);
      JoinHead(qs);
      RenderIsInjective(ps[0], qs[0]);
      if |ps| > 1 {
        JoinIsInjective(ps[1..], qs[1..]);
      }
      assert ps == [ps[0]] + ps[1..] && qs == [qs[0]] + qs[1..];
    }
  }

  ghost predicate SameQuery(a: Values, b: Values) {
    forall k :: multiset(ValuesOf(a, k)) == multiset(ValuesOf(b, k))
  }

  /** Two queries have the same canonical string if and only if every name has the
      same values in both, each as often, in whatever order they came. */
  lemma CanonicalDetermines(a: Values, b: Values, ta: Key, tb: Key)
    requires IsCanonical(a, ta) && IsCanonical(b, tb)
    ensures ta == tb <==> SameQuery(a, b)
  {
    var ps :| SortedPairs(ps) && Carries(ps, a) && ta == Join(ps);
    var qs :| SortedPairs(qs) && Carries(qs, b) && tb == Join(qs);
    if ta == tb {
      JoinIsInjective(ps, qs);
      forall k ensures multiset(ValuesOf(a, k)) == multiset(ValuesOf(b, k)) {
        forall v ensures multiset(ValuesOf(a, k))[v] == multiset(ValuesOf(b, k))[v] {
          assert multiset(ps)[(k, v)] == multiset(qs)[(k, v)];
        }
      }
    }
    if SameQuery(a, b) {
      forall p: Pair ensures multiset(ps)[p] == multiset(qs)[p] {
        assert p == (p.0, p.1);
        assert multiset(ValuesOf(a, p.0)) == multiset(ValuesOf(b, p.0));
      }
      SortedPairsUnique(ps, qs);
    }
  }

  // ----- what the string looks like -----

  /** Pairs are joined by '&', name and value by '='. */
  lemma JoinMeans(p: Pair, q: Pair, rest: seq<Pair>)
    ensures Join([]) == [] && Join([p]) == Encode(p.0) + ['=' as int] + Encode(p.1)
    ensures Join([p, q] + rest) == Encode(p.0) + ['=' as int] + Encode(p.1) + ['&' as int] + Join([q] + rest)
  {
    assert ([p, q] + rest)[1..] == [q] + rest;
  }

  /** The query with the values "2" and "/" for "b" and "1" for "a" is a=1&b=%2F&b=2. */
  lemma ExampleQuery(values: Values)
    requires values == map[[98] := [[50], [47]], [97] := [[49]]]
    ensures IsCanonical(values, [97, 61, 49, 38, 98, 61, 37, 50, 70, 38, 98, 61, 50])
  {
    var p, q, r: Pair := ([97], [49]), ([98], [47]), ([98], [50]);
    ThreeInOrder(p, q, r);
    ThreeCarried(p, q, r, values);
    ExampleText(p, q, r);
    assert SortedPairs([p, q, r]) && Carries([p, q, r], values);
  }

  lemma ThreeInOrder(p: Pair, q: Pair, r: Pair)
    requires p == ([97], [49]) && q == ([98], [47]) && r == ([98], [50])
    ensures SortedPairs([p, q, r])
  {
    assert Less(p.0, q.0) && Less(q.1, r.1);
    LessAsymmetric(p.0, q.0);
    LessAsymmetric(q.1, r.1);
    LessIrreflexive(q.0);
  }

  function One(here: bool): nat {
    if here then 1 else 0
  }

  lemma CountOfThree(p: Pair, q: Pair, r: Pair, x: Pair)
    ensures multiset([p, q, r])[x] == One(x == p) + One(x == q) + One(x == r)
  {
    assert [p, q, r] == [p] + [q] + [r];
  }

  lemma CountOfTwo(a: Key, b: Key, x: Key)
    ensures multiset([a, b])[x] == One(x == a) + One(x == b) && multiset([a])[x] == One(x == a)
  {
    assert [a, b] == [a] + [b];
  }

  lemma ThreeCarried(p: Pair, q: Pair, r: Pair, values: Values)
    requires p == ([97], [49]) && q == ([98], [47]) && r == ([98], [50])
    requires values == map[[98] := [[50], [47]], [97] := [[49]]]
    ensures Carries([p, q, r], values)
  {
    forall k, v ensures multiset([p, q, r])[(k, v)] == multiset(ValuesOf(values, k))[v] {
      CountOfThree(p, q, r, (k, v));
      CountOfTwo([50], [47], v);
      CountOfTwo([49], [49], v);
      ValuesAre(values, k);
    }
  }

  lemma ValuesAre(values: Values, k: Key)
    requires values == map[[98] := [[50], [47]], [97] := [[49]]]
    ensures ValuesOf(values, k) == if k == [98] then [[50], [47]] else if k == [97] then [[49]] else []
  {
    assert [98] != [97] by {
      assert [98][0] != [97][0];
    }
  }

  lemma ExampleText(p: Pair, q: Pair, r: Pair)
    requires p == ([97], [49]) && q == ([98], [47]) && r == ([98], [50])
    ensures Join([p, q, r]) == [97, 61, 49, 38, 98, 61, 37, 50, 70, 38, 98, 61, 50]
  {
    ExampleBytes();
    JoinMeans(p, q, [r]);
    JoinMeans(q, r, []);
    JoinMeans(r, r, []);
    assert [p, q] + [r] == [p, q, r] && [q] + [r] == [q, r] && [q, r] + [] == [q, r] && [r] + [] == [r];
  }

  lemma ExampleBytes()
    ensures Encode([97]) == [97] && Encode([98]) == [98] && Encode([49]) == [49] && Encode([50]) == [50]
    ensures Encode([47]) == [37, 50, 70]
  {
    EncodeMeans(97);
    EncodeMeans(98);
    EncodeMeans(47);
    EncodeMeans(49);
    EncodeMeans(50);
  }
}
