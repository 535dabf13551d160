/** `ListObjects`: a cursor skip-scan over the latest pointers of a bucket,
    rolling keys up at a delimiter and paging with continuation tokens. */
module ObjectListing {
  import opened Keys
  import opened Records

  /** Which keys a listing is about and how it groups them. */
  datatype View = View(bucket: Key, prefix: Key, delimiter: Key)

  datatype Request = Request(view: View, maxKeys: int, continuationToken: Key, startAfter: Key)
  {
    function Limit(): (n: nat)
      ensures n > 0
    {
      if maxKeys <= 0 then 1000 else maxKeys
    }

    /** The continuation token takes the place of StartAfter. */
    function After(): Key {
      if continuationToken != [] then continuationToken else startAfter
    }

    /** Where the scan begins: behind the subtree of a name that ends in the
        delimiter, right behind any other name, else at the prefix. */
    function SeekKey(): Key {
      BucketPrefix(view.bucket) +
      if After() == [] then view.prefix
      else if view.delimiter != [] && EndsWith(After(), view.delimiter) then After() + [255]
      else After() + [0]
    }

    /** The request for the page that follows `token`. */
    function Resume(token: Key): Request {
      this.(continuationToken := token)
    }
  }

  datatype Page = Page(
    objects: seq<ObjectInfo>,
    commonPrefixes: seq<Key>,
    isTruncated: bool,
    nextToken: Key,
    keyCount: nat)

  /** One line of a listing: an object or a rolled-up common prefix. */
  datatype Item = Object(info: ObjectInfo) | CommonPrefix(path: Key) {
    function Name(): Key {
      match this
      case Object(info) => info.key
      case CommonPrefix(path) => path
    }
  }

  predicate EndsWith(k: Key, suffix: Key) {
    |suffix| <= |k| && k[|k| - |suffix|..] == suffix
  }

  // ----- what a listing should show -----

  function ObjectKey(bucket: Key, raw: Key): Key
    requires BucketPrefix(bucket) <= raw
  {
    raw[|bucket| + 1..]
  }

  /** A latest pointer of the bucket: no second 0x00 in its key. */
  predicate IsPointer(bucket: Key, e: Entry) {
    BucketPrefix(bucket) <= e.raw && 0 !in ObjectKey(bucket, e.raw)
  }

  predicate IsLive(v: View, e: Entry) {
    IsPointer(v.bucket, e) && v.prefix <= ObjectKey(v.bucket, e.raw) && !e.info.isDeleteMarker
  }

  /** The common prefix that `key` falls under, if the delimiter occurs behind the prefix. */
  function RollUp(v: View, key: Key): (r: (bool, Key))
    requires v.prefix <= key
    ensures r.0 ==> r.1 <= key && v.prefix <= r.1
  {
    if v.delimiter == [] then (false, [])
    else
      var remaining := key[|v.prefix|..];
      var idx := IndexOf(remaining, v.delimiter);
      if idx < 0 then (false, [])
      else
        assert key == v.prefix + remaining;
        (true, v.prefix + remaining[..idx + |v.delimiter|])
  }

  function ItemOf(v: View, e: Entry): Item
    requires IsLive(v, e)
  {
    var r := RollUp(v, ObjectKey(v.bucket, e.raw));
    if r.0 then CommonPrefix(r.1) else Object(e.info)
  }

  /** The naive listing of the entries from `from` on: keep the live ones, roll
      each up and drop neighbouring duplicates. */
  function Listing(s: seq<Entry>, v: View, from: nat): seq<Item>
    requires from <= |s|
    decreases |s| - from
  {
    if from == |s| then []
    else
      var rest := Listing(s, v, from + 1);
      if !IsLive(v, s[from]) then rest
      else
        var x := ItemOf(v, s[from]);
        if rest != [] && rest[0] == x then rest else [x] + rest
  }

  /** Records that show as objects carry their own key, as `PutObjectMeta` writes
      them. Of a rolled-up record only the database key is looked at. */
  predicate Consistent(s: seq<Entry>, v: View) {
    forall i {:trigger IsLive(v, s[i])} ::
          0 <= i < |s| && IsLive(v, s[i]) && !RollUp(v, ObjectKey(v.bucket, s[i].raw)).0 ==>
      s[i].info.key == ObjectKey(v.bucket, s[i].raw)
  }

  /** From `from` on, no rolled-up key has the byte 0xFF right behind its common
      prefix. The scan skips a subtree by seeking to the prefix followed by 0xFF, so
      it would find such a key again (see SkipMovesOn). */
  predicate Skippable(s: seq<Entry>, v: View, from: nat) {
    forall i {:trigger IsLive(v, s[i])} :: from <= i < |s| && IsLive(v, s[i]) ==>
      var key := ObjectKey(v.bucket, s[i].raw);
      var r := RollUp(v, key);
      r.0 && |key| > |r.1| ==> key[|r.1|] != 255
  }

  // ----- order of the items -----

  lemma RawOrder(bucket: Key, a: Key, b: Key)
    requires BucketPrefix(bucket) <= a && BucketPrefix(bucket) <= b
    ensures Less(a, b) == Less(ObjectKey(bucket, a), ObjectKey(bucket, b))
  {
    var p := BucketPrefix(bucket);
    assert a == p + ObjectKey(bucket, a) && b == p + ObjectKey(bucket, b);
    PrefixCancels(p, ObjectKey(bucket, a), ObjectKey(bucket, b));
  }

  /** Every key below a rolled-up prefix rolls up to that same prefix. */
  lemma RollUpIsShared(v: View, a: Key, b: Key)
    requires v.prefix <= a && v.prefix <= b
    requires RollUp(v, b).0 && RollUp(v, b).1 <= a
    ensures RollUp(v, a) == RollUp(v, b)
  {
    var ra, rb := a[|v.prefix|..], b[|v.prefix|..];
    var idx := IndexOf(rb, v.delimiter);
    var n := idx + |v.delimiter|;
    var d := RollUp(v, b).1;
    assert d[|v.prefix|..] == rb[..n];
    assert d == a[..|d|];
    assert rb[..n] == ra[..n];
    IndexOfPrefix(rb, ra, v.delimiter, n);
  }

  /** Items appear in ascending order of their keys, whichever of the two they are. */
  lemma ItemsAscend(s: seq<Entry>, v: View, i: nat, j: nat)
    requires Sorted(s) && Consistent(s, v) && i < j < |s|
    requires IsLive(v, s[i]) && IsLive(v, s[j])
    ensures ItemOf(v, s[i]) == ItemOf(v, s[j]) || Less(ItemOf(v, s[i]).Name(), ItemOf(v, s[j]).Name())
  {
    var a, b := ObjectKey(v.bucket, s[i].raw), ObjectKey(v.bucket, s[j].raw);
    RawOrder(v.bucket, s[i].raw, s[j].raw);
    var da, db := RollUp(v, a), RollUp(v, b);
    var x := ItemOf(v, s[i]).Name();
    assert x <= a;
    PrefixNotAbove(x, a);
    NotAboveThenBelow(x, a, b);
    if db.0 {
      LessTotal(x, db.1);
      if !Less(x, db.1) {
        if db.1 != x {
          LessAsymmetric(db.1, x);
        }
        NoLongerThan(db.1, x, a);
        LessAsymmetric(a, b);
        PrefixIsConvex(db.1, db.1, a, b);
        RollUpIsShared(v, a, b);
      }
    }
  }

  /** The common prefixes of ascending keys ascend. */
  lemma RollUpsAscend(v: View, a: Key, b: Key)
    requires v.prefix <= a && v.prefix <= b && Less(a, b) && RollUp(v, a).0 && RollUp(v, b).0
             && RollUp(v, a) != RollUp(v, b)
    ensures Less(RollUp(v, a).1, RollUp(v, b).1)
  {
    var x, y := RollUp(v, a).1, RollUp(v, b).1;
    LessTotal(x, y);
    if Less(y, x) {
      LessAsymmetric(y, x);
      NoLongerThan(y, x, a);
      LessAsymmetric(a, b);
      PrefixIsConvex(y, y, a, b);
      RollUpIsShared(v, a, b);
    }
  }

  /** `p <= x` and `x` a prefix of `a` give `p <= a` (in the order). */
  lemma NoLongerThan(p: Key, x: Key, a: Key)
    requires !Less(x, p) && x <= a
    ensures !Less(a, p)
  {
    PrefixNotAbove(x, a);
    if Less(a, p) {
      NotAboveThenBelow(x, a, p);
    }
  }

  // ----- the naive listing is the rolled-up, duplicate-free, ascending listing -----

  ghost predicate Ascending(items: seq<Item>) {
    forall m, n :: 0 <= m < n < |items| ==> Less(items[m].Name(), items[n].Name())
  }

  /** Some live entry at or behind `from` shows as `x`. */
  ghost predicate Shows(s: seq<Entry>, v: View, from: nat, x: Item) {
    exists i :: from <= i < |s| && IsLive(v, s[i]) && ItemOf(v, s[i]) == x
  }

  /** The listing holds exactly the items of the live entries ... */
  lemma {:induction false} ListingExact(s: seq<Entry>, v: View, from: nat)
    requires from <= |s|
    ensures forall x :: x in Listing(s, v, from) <==> Shows(s, v, from, x)
    decreases |s| - from
  {
    if from < |s| {
      ListingExact(s, v, from + 1);
      var rest := Listing(s, v, from + 1);
      forall x ensures x in Listing(s, v, from) <==> Shows(s, v, from, x) {
        if Shows(s, v, from, x) {
          var i :| from <= i < |s| && IsLive(v, s[i]) && ItemOf(v, s[i]) == x;
          if i > from {
            assert Shows(s, v, from + 1, x);
          }
        }
        if x in rest {
          assert Shows(s, v, from + 1, x);
          var i :| from + 1 <= i < |s| && IsLive(v, s[i]) && ItemOf(v, s[i]) == x;
        }
      }
    }
  }

  /** ... in strictly ascending order: together they fix it completely. */
  lemma {:induction false} ListingAscends(s: seq<Entry>, v: View, from: nat)
    requires Sorted(s) && Consistent(s, v) && from <= |s|
    ensures Ascending(Listing(s, v, from))
    decreases |s| - from
  {
    if from < |s| {
      ListingAscends(s, v, from + 1);
      if IsLive(v, s[from]) {
        HeadIsLeast(s, v, from);
        AscendingWith(ItemOf(v, s[from]), Listing(s, v, from + 1));
      }
    }
  }

  lemma HeadIsLeast(s: seq<Entry>, v: View, i: nat)
    requires Sorted(s) && Consistent(s, v) && i < |s| && IsLive(v, s[i])
    ensures var rest := Listing(s, v, i + 1);
            rest != [] && rest[0] != ItemOf(v, s[i]) ==> Less(ItemOf(v, s[i]).Name(), rest[0].Name())
  {
    var rest := Listing(s, v, i + 1);
    if rest != [] {
      ListingExact(s, v, i + 1);
      assert rest[0] in rest;
      var j :| i + 1 <= j < |s| && IsLive(v, s[j]) && ItemOf(v, s[j]) == rest[0];
      ItemsAscend(s, v, i, j);
    }
  }

  lemma AscendingWith(x: Item, rest: seq<Item>)
    requires Ascending(rest) && (rest != [] && rest[0] != x ==> Less(x.Name(), rest[0].Name()))
    ensures Ascending(if rest != [] && rest[0] == x then rest else [x] + rest)
  {
    if rest != [] && rest[0] != x {
      AscendingCons(x, rest);
    }
  }

  lemma AscendingCons(x: Item, rest: seq<Item>)
    requires Ascending(rest) && rest != [] && Less(x.Name(), rest[0].Name())
    ensures Ascending([x] + rest)
  {
    forall n | 0 < n < |rest| ensures Less(x.Name(), rest[n].Name()) {
      LessTransitive(x.Name(), rest[0].Name(), rest[n].Name());
    }
  }

  /** A stretch of entries that all roll up to one item collapses into it. */
  lemma {:induction false} Collapse(s: seq<Entry>, v: View, k: nat, j: nat, x: Item)
    requires k <= j <= |s|
    requires forall m :: k <= m < j && IsLive(v, s[m]) ==> ItemOf(v, s[m]) == x
    requires Listing(s, v, j) == [] || Listing(s, v, j)[0] != x
    ensures Listing(s, v, k) in {Listing(s, v, j), [x] + Listing(s, v, j)}
    ensures k < j && IsLive(v, s[k]) ==> Listing(s, v, k) == [x] + Listing(s, v, j)
    decreases j - k
  {
    if k < j {
      Collapse(s, v, k + 1, j, x);
    }
  }

  /** Keys from an extension of `p` up to `p + "\xff"` all extend `p`. */
  lemma WithinSubtree(p: Key, a: Key, b: Key)
    requires p <= a && !Less(b, a) && Less(b, p + [255])
    ensures p <= b
  {
    LessAsymmetric(b, p + [255]);
    PrefixIsConvex(p, a, b, p + [255]);
  }

  lemma PrefixInBucket(bucket: Key, raw: Key, d: Key)
    requires BucketPrefix(bucket) <= raw
    ensures BucketPrefix(bucket) + d <= raw <==> d <= ObjectKey(bucket, raw)
  {
    var p := BucketPrefix(bucket);
    assert raw == p + ObjectKey(bucket, raw);
    if p + d <= raw {
      assert raw[|p|..|p| + |d|] == (p + d)[|p|..|p| + |d|] == d;
    }
  }

  /** Between a rolled-up key and the skip target everything rolls up alike. */
  lemma SkippedShareItem(s: seq<Entry>, v: View, i: nat, m: nat, d: Key)
    requires Sorted(s) && i <= m < |s| && IsLive(v, s[i]) && IsLive(v, s[m])
    requires RollUp(v, ObjectKey(v.bucket, s[i].raw)) == (true, d)
    requires Less(s[m].raw, BucketPrefix(v.bucket) + d + [255])
    ensures ItemOf(v, s[m]) == CommonPrefix(d)
  {
    PrefixInBucket(v.bucket, s[i].raw, d);
    PrefixInBucket(v.bucket, s[m].raw, d);
    LessIrreflexive(s[i].raw);
    if i < m {
      LessAsymmetric(s[i].raw, s[m].raw);
    }
    WithinSubtree(BucketPrefix(v.bucket) + d, s[i].raw, s[m].raw);
    RollUpIsShared(v, ObjectKey(v.bucket, s[m].raw), ObjectKey(v.bucket, s[i].raw));
  }

  /** A live key at or behind `from` has the byte 0xFF right behind `d`. */
  ghost predicate Traps(s: seq<Entry>, v: View, from: nat, d: Key) {
    exists m {:trigger IsLive(v, s[m])} ::
          from <= m < |s| && IsLive(v, s[m]) && d + [255] <= ObjectKey(v.bucket, s[m].raw)
  }

  /** At or behind the skip target only such keys roll up to that prefix. */
  lemma BeyondSkipDiffers(s: seq<Entry>, v: View, m: nat, d: Key)
    requires m < |s| && IsLive(v, s[m]) && !(d + [255] <= ObjectKey(v.bucket, s[m].raw))
    requires !Less(s[m].raw, BucketPrefix(v.bucket) + d + [255])
    ensures RollUp(v, ObjectKey(v.bucket, s[m].raw)) != (true, d)
  {
    var key := ObjectKey(v.bucket, s[m].raw);
    if RollUp(v, key) == (true, d) {
      PrefixInBucket(v.bucket, s[m].raw, d);
      SkipsSubtree(BucketPrefix(v.bucket) + d, s[m].raw);
      assert false;
    }
  }

  /** Without such keys the skip seek lands behind the whole subtree, loses
      nothing else, and moves forward. */
  lemma SkipIsExact(s: seq<Entry>, v: View, i: nat, d: Key, j: nat)
    requires Sorted(s) && i < |s| && IsLive(v, s[i]) && !Traps(s, v, i, d)
    requires RollUp(v, ObjectKey(v.bucket, s[i].raw)) == (true, d)
    requires j == Seek(s, BucketPrefix(v.bucket) + d + [255])
    ensures i < j <= |s| && Listing(s, v, i) == [CommonPrefix(d)] + Listing(s, v, j)
  {
    SeekSplits(s, BucketPrefix(v.bucket) + d + [255]);
    if j <= i {
      BeyondSkipDiffers(s, v, i, d);
    }
    forall m | i <= m < j && IsLive(v, s[m]) ensures ItemOf(v, s[m]) == CommonPrefix(d) {
      SkippedShareItem(s, v, i, m, d);
    }
    ListingExact(s, v, j);
    var rest := Listing(s, v, j);
    if rest != [] && rest[0] == CommonPrefix(d) {
      assert Shows(s, v, j, rest[0]);
      var m :| j <= m < |s| && IsLive(v, s[m]) && ItemOf(v, s[m]) == CommonPrefix(d);
      BeyondSkipDiffers(s, v, m, d);
    }
    Collapse(s, v, i, j, CommonPrefix(d));
  }

  /** The skip seek moves the cursor on if and only if the key does not have 0xFF
      right behind its common prefix; if it has, the seek goes back to that key or
      an earlier one (what becomes of the loop then is ScanEndsIff). */
  lemma SkipMovesOn(s: seq<Entry>, v: View, i: nat, d: Key)
    requires Sorted(s) && i < |s| && IsLive(v, s[i]) && RollUp(v, ObjectKey(v.bucket, s[i].raw)) == (true, d)
    ensures var key := ObjectKey(v.bucket, s[i].raw);
            i < Seek(s, BucketPrefix(v.bucket) + d + [255]) <==> !(|key| > |d| && key[|d|] == 255)
  {
    var p, key := BucketPrefix(v.bucket), ObjectKey(v.bucket, s[i].raw);
    assert s[i].raw == p + key;
    SeekSplits(s, p + d + [255]);
    PrefixInBucket(v.bucket, s[i].raw, d);
    SkipsSubtree(p + d, s[i].raw);
  }

  // ----- which keys roll up, and to what -----

  /** The delimiter stands at `at` in the key, behind the prefix. */
  predicate DelimiterAt(v: View, key: Key, at: nat) {
    |v.prefix| <= at && at + |v.delimiter| <= |key| && key[at..at + |v.delimiter|] == v.delimiter
  }

  /** `d` is the key up to the end of the first delimiter behind the prefix. */
  ghost predicate GroupsUnder(v: View, key: Key, d: Key) {
    v.delimiter != [] && exists at: nat :: FirstDelimiter(v, key, at) && d == key[..at + |v.delimiter|]
  }

  ghost predicate FirstDelimiter(v: View, key: Key, at: nat) {
    DelimiterAt(v, key, at) && forall b: nat :: DelimiterAt(v, key, b) ==> at <= b
  }

  ghost predicate Grouped(v: View, key: Key) {
    v.delimiter != [] && exists at: nat :: DelimiterAt(v, key, at)
  }

  lemma DelimiterShifts(v: View, key: Key, at: nat)
    requires v.prefix <= key && |v.prefix| <= at
    ensures DelimiterAt(v, key, at) <==> At(key[|v.prefix|..], v.delimiter, at - |v.prefix|)
  {
    if at + |v.delimiter| <= |key| {
      assert key[|v.prefix|..][at - |v.prefix|..at - |v.prefix| + |v.delimiter|] == key[at..at + |v.delimiter|];
    }
  }

  lemma IndexIsFirstDelimiter(v: View, key: Key)
    requires v.prefix <= key
    ensures var idx := IndexOf(key[|v.prefix|..], v.delimiter);
            if idx < 0 then forall at: nat :: !DelimiterAt(v, key, at) else FirstDelimiter(v, key, |v.prefix| + idx)
  {
    IndexFromIsFirst(key[|v.prefix|..], v.delimiter, 0);
    forall at: nat | |v.prefix| <= at
      ensures DelimiterAt(v, key, at) <==> At(key[|v.prefix|..], v.delimiter, at - |v.prefix|)
    {
      DelimiterShifts(v, key, at);
    }
  }

  /** A key rolls up if and only if a delimiter stands behind the prefix, and then to
      its shortest prefix that ends in such a delimiter. */
  lemma RollUpMeans(v: View, key: Key)
    requires v.prefix <= key
    ensures RollUp(v, key).0 <==> Grouped(v, key)
    ensures forall d :: RollUp(v, key) == (true, d) <==> GroupsUnder(v, key, d)
  {
    IndexIsFirstDelimiter(v, key);
    var idx := IndexOf(key[|v.prefix|..], v.delimiter);
    if v.delimiter != [] && idx >= 0 {
      assert DelimiterAt(v, key, |v.prefix| + idx);
      assert v.prefix + key[|v.prefix|..][..idx + |v.delimiter|] == key[..|v.prefix| + idx + |v.delimiter|];
    }
  }

  // ----- one page -----

  function Start(s: seq<Entry>, req: Request): (pos: nat)
    ensures pos <= |s|
  {
    Seek(s, req.SeekKey())
  }

  /** A latest pointer at or behind `pos` whose key lies below the prefix. */
  ghost predicate BlockedFrom(s: seq<Entry>, v: View, pos: nat) {
    exists i :: pos <= i < |s| && IsPointer(v.bucket, s[i]) && Less(ObjectKey(v.bucket, s[i].raw), v.prefix)
  }

  /** What a scan shows from `pos` on: nothing behind a key that lies below the
      prefix, because the source leaves the loop at the first key without the
      prefix; otherwise the naive listing. */
  ghost function Walk(s: seq<Entry>, v: View, pos: nat): seq<Item>
    requires pos <= |s|
  {
    if BlockedFrom(s, v, pos) then [] else Listing(s, v, pos)
  }

  ghost function Visible(s: seq<Entry>, req: Request): seq<Item> {
    Walk(s, req.view, Start(s, req))
  }

  /** The objects among the first `n` items. */
  function ObjectsIn(items: seq<Item>, n: nat): seq<ObjectInfo>
    requires n <= |items|
  {
    if n == 0 then []
    else if items[n - 1].Object? then ObjectsIn(items, n - 1) + [items[n - 1].info]
    else ObjectsIn(items, n - 1)
  }

  /** The common prefixes among the first `n` items. */
  function PathsIn(items: seq<Item>, n: nat): seq<Key>
    requires n <= |items|
  {
    if n == 0 then []
    else if items[n - 1].CommonPrefix? then PathsIn(items, n - 1) + [items[n - 1].path]
    else PathsIn(items, n - 1)
  }

  /** The name of the last of the first `n` items. */
  function TokenAt(items: seq<Item>, n: nat): Key
    requires n <= |items|
  {
    if n == 0 then [] else items[n - 1].Name()
  }

  function Min(a: nat, b: nat): nat {
    if a < b then a else b
  }

  /** How many items the page shows: MaxKeys of them, or all there are. */
  ghost function PageSize(s: seq<Entry>, req: Request): nat
  {
    Min(req.Limit(), |Visible(s, req)|)
  }

  ghost predicate Truncated(s: seq<Entry>, req: Request)
  {
    |Visible(s, req)| > req.Limit()
  }

  /** One page: the first MaxKeys of what is visible from its start. */
  ghost function PageOf(s: seq<Entry>, req: Request): Page
  {
    var (items, n) := (Visible(s, req), PageSize(s, req));
    Page(ObjectsIn(items, n), PathsIn(items, n), Truncated(s, req),
         if Truncated(s, req) then TokenAt(items, n) else [], n)
  }

  /** `advanceToken`: the later of the two candidates. */
  function AdvanceToken(current: Key, candidate: Key): Key {
    if Less(current, candidate) then candidate else current
  }

  /** Behind the start every key of the bucket comes before every other key. */
  lemma OutsideBucketEnds(s: seq<Entry>, req: Request, i: nat)
    requires Sorted(s) && Start(s, req) <= i < |s| && !(BucketPrefix(req.view.bucket) <= s[i].raw)
    ensures Listing(s, req.view, i) == []
  {
    forall m | i <= m < |s| ensures !IsLive(req.view, s[m]) {
      StaysOutside(s, req, i, m);
    }
    ListingEmpty(s, req.view, i, |s|);
  }

  lemma StaysOutside(s: seq<Entry>, req: Request, i: nat, m: nat)
    requires Sorted(s) && Start(s, req) <= i <= m < |s| && !(BucketPrefix(req.view.bucket) <= s[i].raw)
    ensures !(BucketPrefix(req.view.bucket) <= s[m].raw)
  {
    SeekSplits(s, req.SeekKey());
    if i < m && BucketPrefix(req.view.bucket) <= s[m].raw {
      LessAsymmetric(s[i].raw, s[m].raw);
      PrefixIsConvex(BucketPrefix(req.view.bucket), req.SeekKey(), s[i].raw, s[m].raw);
    }
  }

  /** Behind a pointer that lies above the prefix's interval nothing matches any more. */
  lemma AbovePrefixEnds(s: seq<Entry>, v: View, i: nat)
    requires Sorted(s) && i < |s| && IsPointer(v.bucket, s[i])
    requires !(v.prefix <= ObjectKey(v.bucket, s[i].raw)) && !Less(ObjectKey(v.bucket, s[i].raw), v.prefix)
    ensures Listing(s, v, i) == []
  {
    forall m | i <= m < |s| ensures !IsLive(v, s[m]) {
      if IsLive(v, s[m]) && i < m {
        var a, b := ObjectKey(v.bucket, s[i].raw), ObjectKey(v.bucket, s[m].raw);
        RawOrder(v.bucket, s[i].raw, s[m].raw);
        LessAsymmetric(a, b);
        PrefixIsConvex(v.prefix, v.prefix, a, b);
      }
    }
    ListingEmpty(s, v, i, |s|);
  }

  lemma {:induction false} ListingEmpty(s: seq<Entry>, v: View, from: nat, end: nat)
    requires from <= end <= |s|
    requires forall m :: from <= m < end ==> !IsLive(v, s[m])
    ensures Listing(s, v, from) == Listing(s, v, end)
    decreases end - from
  {
    if from < end {
      ListingEmpty(s, v, from + 1, end);
    }
  }

  /** Everything from the start on lies behind StartAfter, so the loop's own
      comparison with StartAfter never skips a key. */
  lemma BehindStartAfter(s: seq<Entry>, req: Request, i: nat)
    requires Sorted(s) && Start(s, req) <= i < |s| && BucketPrefix(req.view.bucket) <= s[i].raw && req.After() != []
    ensures Less(req.After(), ObjectKey(req.view.bucket, s[i].raw))
  {
    var p, t, k := BucketPrefix(req.view.bucket), req.After(), ObjectKey(req.view.bucket, s[i].raw);
    assert s[i].raw == p + k;
    SeekSplits(s, req.SeekKey());
    PrefixCancels(p, k, t + [0]);
    PrefixCancels(p, k, t + [255]);
    SuccessorIsNext(t, k);
    SkipsSubtree(t, t);
    if !Less(t, k) {
      BelowThenNotAbove(k, t + [0], t + [255]) by {
        SuccessorIsNext(t, t + [255]);
        PrefixNotAbove(t, t + [255]);
      }
    }
  }

  /** An object at the cursor comes first in the rest of the listing. */
  lemma ObjectComesFirst(s: seq<Entry>, v: View, pos: nat)
    requires Sorted(s) && Consistent(s, v) && pos < |s| && IsLive(v, s[pos])
    requires !RollUp(v, ObjectKey(v.bucket, s[pos].raw)).0
    ensures Listing(s, v, pos) == [Object(s[pos].info)] + Listing(s, v, pos + 1)
  {
    ListingExact(s, v, pos + 1);
    var rest := Listing(s, v, pos + 1);
    if rest != [] {
      assert Shows(s, v, pos + 1, rest[0]);
      var i :| pos + 1 <= i < |s| && IsLive(v, s[i]) && ItemOf(v, s[i]) == rest[0];
      RawOrder(v.bucket, s[pos].raw, s[i].raw);
      LessAsymmetric(ObjectKey(v.bucket, s[pos].raw), ObjectKey(v.bucket, s[i].raw));
    }
  }

  /** What the scan does with the entry at the cursor, in the order of its checks. */
  datatype Verdict = Stop | Skip | Roll(path: Key) | Show

  function Visit(v: View, startAfter: Key, e: Entry): Verdict {
    if !(BucketPrefix(v.bucket) <= e.raw) then Stop
    else
      var objectKey := ObjectKey(v.bucket, e.raw);
      if 0 in objectKey then Skip
      else if startAfter != [] && !Less(startAfter, objectKey) then Skip
      else if !(v.prefix <= objectKey) then Stop
      else if e.info.isDeleteMarker then Skip
      else
        var r := RollUp(v, objectKey);
        if r.0 then Roll(r.1) else Show
  }

  /** The state of the cursor loop. */
  datatype Scan = Scan(pos: nat, objects: seq<ObjectInfo>, commonPrefixes: seq<Key>, seen: set<Key>, token: Key) {
    function Count(): nat {
      |objects| + |commonPrefixes|
    }
  }

  /** The loop goes on, or it is left with the page full or not. */
  datatype Progress = Going(scan: Scan) | Over(scan: Scan, truncated: bool)

  function Target(v: View, d: Key): Key {
    BucketPrefix(v.bucket) + d + [255]
  }

  /** One turn of the loop. */
  function Step(s: seq<Entry>, req: Request, c: Scan): Progress {
    if c.pos >= |s| then Over(c, false)
    else
      match Visit(req.view, req.After(), s[c.pos])
      case Stop => Over(c, false)
      case Skip => Going(c.(pos := c.pos + 1))
      case Roll(d) =>
        var next := Seek(s, Target(req.view, d));
        if d in c.seen then Going(c.(pos := next))
        else if c.Count() >= req.Limit() then Over(c, true)
        else Going(Scan(next, c.objects, c.commonPrefixes + [d], c.seen + {d}, AdvanceToken(c.token, d)))
      case Show =>
        var obj := s[c.pos].info;
        if c.Count() >= req.Limit() then Over(c, true)
        else Going(Scan(c.pos + 1, c.objects + [obj], c.commonPrefixes, c.seen, AdvanceToken(c.token, obj.key)))
  }

  function Begin(s: seq<Entry>, req: Request): Scan {
    Scan(Start(s, req), [], [], {}, [])
  }

  /** A loop after `k` turns. */
  function AfterTurns(turn: Scan -> Progress, begin: Scan, k: nat): Progress {
    if k == 0 then Going(begin)
    else
      var p := AfterTurns(turn, begin, k - 1);
      if p.Going? then turn(p.scan) else p
  }

  function Turn(s: seq<Entry>, req: Request): Scan -> Progress {
    c => Step(s, req, c)
  }

  ghost predicate Halts(turn: Scan -> Progress, begin: Scan) {
    exists k: nat :: AfterTurns(turn, begin, k).Over?
  }

  ghost predicate Ends(s: seq<Entry>, req: Request) {
    Halts(Turn(s, req), Begin(s, req))
  }

  /** Item `q` of the page is a common prefix that some key behind the start
      follows with the byte 0xFF. */
  ghost predicate TrapAt(s: seq<Entry>, req: Request, q: nat) {
    && q < PageSize(s, req) && Visible(s, req)[q].CommonPrefix?
    && Traps(s, req.view, Start(s, req), Visible(s, req)[q].path)
  }

  ghost predicate Stuck(s: seq<Entry>, req: Request) {
    exists q :: TrapAt(s, req, q)
  }

  // ----- every verdict is right about everything from the cursor on -----

  /** A latest pointer with the prefix ends all blocking by smaller keys. */
  lemma NotBlockedAt(s: seq<Entry>, v: View, pos: nat, next: nat)
    requires Sorted(s) && pos < |s| && pos <= next
    requires IsPointer(v.bucket, s[pos]) && !Less(ObjectKey(v.bucket, s[pos].raw), v.prefix)
    ensures !BlockedFrom(s, v, next)
  {
    if i :| next <= i < |s| && IsPointer(v.bucket, s[i]) && Less(ObjectKey(v.bucket, s[i].raw), v.prefix) {
      if pos < i {
        RawOrder(v.bucket, s[pos].raw, s[i].raw);
        LessTransitive(ObjectKey(v.bucket, s[pos].raw), ObjectKey(v.bucket, s[i].raw), v.prefix);
      }
    }
  }

  lemma StopIsRight(s: seq<Entry>, req: Request, pos: nat)
    requires Sorted(s) && Start(s, req) <= pos <= |s|
    requires pos < |s| ==> Visit(req.view, req.After(), s[pos]).Stop?
    ensures Walk(s, req.view, pos) == []
  {
    if pos == |s| {
    } else if !(BucketPrefix(req.view.bucket) <= s[pos].raw) {
      OutsideBucketEnds(s, req, pos);
    } else if !Less(ObjectKey(req.view.bucket, s[pos].raw), req.view.prefix) {
      AbovePrefixEnds(s, req.view, pos);
    }
  }

  lemma SkipIsRight(s: seq<Entry>, req: Request, pos: nat)
    requires Sorted(s) && Start(s, req) <= pos < |s|
    requires Visit(req.view, req.After(), s[pos]).Skip?
    ensures Walk(s, req.view, pos) == Walk(s, req.view, pos + 1)
  {
    if req.After() != [] {
      BehindStartAfter(s, req, pos);
    }
    var key := ObjectKey(req.view.bucket, s[pos].raw);
    if IsPointer(req.view.bucket, s[pos]) {
      PrefixNotAbove(req.view.prefix, key);
      NotBlockedAt(s, req.view, pos, pos);
      NotBlockedAt(s, req.view, pos, pos + 1);
    } else {
      assert BlockedFrom(s, req.view, pos) ==> BlockedFrom(s, req.view, pos + 1);
    }
  }

  lemma ShowIsRight(s: seq<Entry>, req: Request, pos: nat)
    requires Sorted(s) && Consistent(s, req.view) && pos < |s|
    requires Visit(req.view, req.After(), s[pos]).Show?
    ensures Walk(s, req.view, pos) == [Object(s[pos].info)] + Walk(s, req.view, pos + 1)
  {
    PrefixNotAbove(req.view.prefix, ObjectKey(req.view.bucket, s[pos].raw));
    ObjectComesFirst(s, req.view, pos);
    NotBlockedAt(s, req.view, pos, pos);
    NotBlockedAt(s, req.view, pos, pos + 1);
  }

  lemma RollIsRight(s: seq<Entry>, req: Request, pos: nat, d: Key, next: nat)
    requires Sorted(s) && Start(s, req) <= pos < |s|
    requires Visit(req.view, req.After(), s[pos]) == Roll(d) && !Traps(s, req.view, Start(s, req), d)
    requires next == Seek(s, Target(req.view, d))
    ensures pos < next && Walk(s, req.view, pos) == [CommonPrefix(d)] + Walk(s, req.view, next)
  {
    PrefixNotAbove(req.view.prefix, ObjectKey(req.view.bucket, s[pos].raw));
    SkipIsExact(s, req.view, pos, d, next);
    NotBlockedAt(s, req.view, pos, pos);
    NotBlockedAt(s, req.view, pos, next);
  }

  /** A live entry's item heads what is still to come. */
  lemma HeadOfWalk(s: seq<Entry>, v: View, pos: nat)
    requires Sorted(s) && pos < |s| && IsLive(v, s[pos])
    ensures Walk(s, v, pos) != [] && Walk(s, v, pos)[0] == ItemOf(v, s[pos])
  {
    PrefixNotAbove(v.prefix, ObjectKey(v.bucket, s[pos].raw));
    NotBlockedAt(s, v, pos, pos);
  }

  // ----- the loop emits the listing item by item -----

  /** The items emitted are the first of `all`, and the rest lies at or behind the cursor. */
  ghost predicate Scanned(s: seq<Entry>, v: View, all: seq<Item>, c: Scan) {
    var n := c.Count();
    && Ascending(all) && n <= |all| && c.pos <= |s|
    && Walk(s, v, c.pos) == all[n..]
    && c.objects == ObjectsIn(all, n) && c.commonPrefixes == PathsIn(all, n)
    && c.token == TokenAt(all, n)
    && forall d :: d in c.seen ==> n > 0 && !Less(c.token, d)
  }

  ghost predicate OnTrack(s: seq<Entry>, req: Request, c: Scan) {
    Scanned(s, req.view, Visible(s, req), c) && Start(s, req) <= c.pos && c.Count() <= req.Limit()
  }

  lemma ScanBegins(s: seq<Entry>, req: Request)
    requires Sorted(s) && Consistent(s, req.view)
    ensures OnTrack(s, req, Begin(s, req))
  {
    ListingAscends(s, req.view, Start(s, req));
  }

  /** What the cursor finds is the next item, and it is new. */
  lemma ScanFinds(s: seq<Entry>, v: View, all: seq<Item>, c: Scan)
    requires Sorted(s) && Scanned(s, v, all, c) && c.pos < |s| && IsLive(v, s[c.pos])
    ensures c.Count() < |all| && all[c.Count()] == ItemOf(v, s[c.pos])
    ensures all[c.Count()].CommonPrefix? ==> all[c.Count()].path !in c.seen
  {
    var n := c.Count();
    HeadOfWalk(s, v, c.pos);
    assert all[n] == all[n..][0];
    if n > 0 {
      assert Less(all[n - 1].Name(), all[n].Name());
    }
  }

  lemma EmittedIsNext(all: seq<Item>, n: nat, m: nat, x: Item, rest: seq<Item>)
    requires n <= |all| && m == n + 1 && all[n..] == [x] + rest
    ensures m <= |all| && all[n] == x && all[m..] == rest
    ensures ObjectsIn(all, m) == if x.Object? then ObjectsIn(all, n) + [x.info] else ObjectsIn(all, n)
    ensures PathsIn(all, m) == if x.CommonPrefix? then PathsIn(all, n) + [x.path] else PathsIn(all, n)
    ensures TokenAt(all, m) == x.Name()
  {
    assert |all[n..]| == 1 + |rest|;
    assert all[n] == all[n..][0] && all[m..] == all[n..][1..];
  }

  lemma TokenIsLatest(seen: set<Key>, token: Key, name: Key, n: nat)
    requires if n == 0 then token == [] && seen == {} else Less(token, name) && forall d ::
               d in seen ==> !Less(token, d)
    ensures AdvanceToken(token, name) == name
    ensures forall d :: d in seen + {name} ==> !Less(name, d)
  {
    LessIrreflexive(name);
    if n == 0 {
      assert name == [] || Less([], name);
    }
    forall d | d in seen ensures !Less(name, d) {
      if Less(name, d) { LessTransitive(token, name, d); }
    }
  }

  /** Emitting `x`, the first of what is still to come, moves on by one item: its
      name is the later of the old token and itself. */
  lemma ScanEmits(s: seq<Entry>, v: View, all: seq<Item>, c: Scan, x: Item, next: Scan)
    requires Scanned(s, v, all, c) && next.pos <= |s| && Walk(s, v, c.pos) == [x] + Walk(s, v, next.pos)
    requires next.objects == if x.Object? then c.objects + [x.info] else c.objects
    requires next.commonPrefixes == if x.CommonPrefix? then c.commonPrefixes + [x.path] else c.commonPrefixes
    requires next.seen <= c.seen + {x.Name()} && next.token == AdvanceToken(c.token, x.Name())
    ensures Scanned(s, v, all, next)
  {
    var n, m, rest := c.Count(), next.Count(), Walk(s, v, next.pos);
    EmittedIsNext(all, n, m, x, rest);
    if n > 0 {
      assert Less(c.token, x.Name());
    }
    TokenIsLatest(c.seen, c.token, x.Name(), n);
  }

  function PageFrom(c: Scan, truncated: bool): Page {
    Page(c.objects, c.commonPrefixes, truncated, if truncated then c.token else [], c.Count())
  }

  /** The loop is left with nothing to come, or with the page full. */
  lemma ScanIsOver(s: seq<Entry>, req: Request, c: Scan, truncated: bool)
    requires OnTrack(s, req, c)
    requires truncated ==> c.Count() == req.Limit() < |Visible(s, req)|
    requires !truncated ==> Walk(s, req.view, c.pos) == []
    ensures PageOf(s, req) == PageFrom(c, truncated)
  {
  }

  lemma StopTurn(s: seq<Entry>, req: Request, c: Scan)
    requires Sorted(s) && OnTrack(s, req, c)
    requires c.pos < |s| ==> Visit(req.view, req.After(), s[c.pos]).Stop?
    ensures PageOf(s, req) == PageFrom(c, false)
  {
    StopIsRight(s, req, c.pos);
    ScanIsOver(s, req, c, false);
  }

  lemma FullTurn(s: seq<Entry>, req: Request, c: Scan)
    requires Sorted(s) && OnTrack(s, req, c) && c.pos < |s| && IsLive(req.view, s[c.pos]) && c.Count() >= req.Limit()
    ensures PageOf(s, req) == PageFrom(c, true)
  {
    ScanFinds(s, req.view, Visible(s, req), c);
    ScanIsOver(s, req, c, true);
  }

  lemma SkipTurn(s: seq<Entry>, req: Request, c: Scan, next: Scan)
    requires Sorted(s) && OnTrack(s, req, c) && c.pos < |s|
    requires Visit(req.view, req.After(), s[c.pos]).Skip? && next == c.(pos := c.pos + 1)
    ensures OnTrack(s, req, next)
  {
    SkipIsRight(s, req, c.pos);
  }

  lemma ShowTurn(s: seq<Entry>, req: Request, c: Scan, obj: ObjectInfo, next: Scan)
    requires Sorted(s) && Consistent(s, req.view) && OnTrack(s, req, c) && c.pos < |s| && c.Count() < req.Limit()
    requires Visit(req.view, req.After(), s[c.pos]).Show? && obj == s[c.pos].info
    requires next == Scan(c.pos + 1, c.objects + [obj], c.commonPrefixes, c.seen, AdvanceToken(c.token, obj.key))
    ensures OnTrack(s, req, next)
  {
    ShowIsRight(s, req, c.pos);
    ScanEmits(s, req.view, Visible(s, req), c, Object(obj), next);
  }

  lemma RollTurn(s: seq<Entry>, req: Request, c: Scan, d: Key, next: Scan)
    requires Sorted(s) && OnTrack(s, req, c) && c.pos < |s| && c.Count() < req.Limit()
    requires Visit(req.view, req.After(), s[c.pos]) == Roll(d) && !TrapAt(s, req, c.Count())
    requires next == Scan(Seek(s, Target(req.view, d)), c.objects, c.commonPrefixes + [d], c.seen + {d},
             AdvanceToken(c.token, d))
    ensures c.pos < next.pos && OnTrack(s, req, next)
  {
    ScanFinds(s, req.view, Visible(s, req), c);
    RollIsRight(s, req, c.pos, d, next.pos);
    ScanEmits(s, req.view, Visible(s, req), c, CommonPrefix(d), next);
  }

  /** The turn from `c` to `p` brought the loop closer to the page, or to its end. */
  ghost predicate Closer(s: seq<Entry>, req: Request, track: Scan -> bool, c: Scan, p: Progress) {
    if p.Going? then c.pos < p.scan.pos && p.scan.Count() <= c.Count() + 1 && track(p.scan)
    else PageOf(s, req) == PageFrom(c, p.truncated)
  }

  ghost function TrackOf(s: seq<Entry>, req: Request): Scan -> bool {
    c => OnTrack(s, req, c)
  }

  lemma StopIsCloser(s: seq<Entry>, req: Request, c: Scan)
    requires Sorted(s) && OnTrack(s, req, c)
    requires c.pos < |s| ==> Visit(req.view, req.After(), s[c.pos]).Stop?
    ensures Closer(s, req, TrackOf(s, req), c, Step(s, req, c))
  {
    StopTurn(s, req, c);
  }

  lemma SkipIsCloser(s: seq<Entry>, req: Request, c: Scan)
    requires Sorted(s) && OnTrack(s, req, c)
    requires c.pos < |s| && Visit(req.view, req.After(), s[c.pos]).Skip?
    ensures Closer(s, req, TrackOf(s, req), c, Step(s, req, c))
  {
    SkipTurn(s, req, c, c.(pos := c.pos + 1));
  }

  lemma ShowIsCloser(s: seq<Entry>, req: Request, c: Scan)
    requires Sorted(s) && Consistent(s, req.view) && OnTrack(s, req, c)
    requires c.pos < |s| && Visit(req.view, req.After(), s[c.pos]).Show?
    ensures Closer(s, req, TrackOf(s, req), c, Step(s, req, c))
  {
    if c.Count() >= req.Limit() {
      FullTurn(s, req, c);
    } else {
      ShowTurn(s, req, c, s[c.pos].info, Step(s, req, c).scan);
    }
  }

  lemma RollIsCloser(s: seq<Entry>, req: Request, c: Scan, d: Key)
    requires Sorted(s) && Consistent(s, req.view) && OnTrack(s, req, c)
    requires c.pos < |s| && Visit(req.view, req.After(), s[c.pos]) == Roll(d) && !TrapAt(s, req, c.Count())
    ensures Closer(s, req, TrackOf(s, req), c, Step(s, req, c))
  {
    ScanFinds(s, req.view, Visible(s, req), c);
    if c.Count() >= req.Limit() {
      FullTurn(s, req, c);
    } else {
      RollTurn(s, req, c, d, Step(s, req, c).scan);
    }
  }

  /** Every turn does, unless it falls into a trap. */
  lemma StepIsRight(s: seq<Entry>, req: Request, c: Scan)
    requires Sorted(s) && Consistent(s, req.view) && OnTrack(s, req, c)
    requires c.pos < |s| && Visit(req.view, req.After(), s[c.pos]).Roll? ==> !TrapAt(s, req, c.Count())
    ensures Closer(s, req, TrackOf(s, req), c, Step(s, req, c))
  {
    if c.pos == |s| {
      StopIsCloser(s, req, c);
    } else {
      match Visit(req.view, req.After(), s[c.pos])
      case Stop => StopIsCloser(s, req, c);
      case Skip => SkipIsCloser(s, req, c);
      case Show => ShowIsCloser(s, req, c);
      case Roll(d) => RollIsCloser(s, req, c, d);
    }
  }

  /** The loop comes to `c`. */
  ghost predicate Reached(turn: Scan -> Progress, begin: Scan, c: Scan) {
    exists k: nat :: AfterTurns(turn, begin, k) == Going(c)
  }

  lemma ReachedNext(turn: Scan -> Progress, begin: Scan, c: Scan)
    requires Reached(turn, begin, c)
    ensures if turn(c).Going? then Reached(turn, begin, turn(c).scan) else Halts(turn, begin)
  {
    var k: nat :| AfterTurns(turn, begin, k) == Going(c);
    assert AfterTurns(turn, begin, k + 1) == turn(c);
  }

  /** A loop invariant: it holds at first, and while it holds the cursor moves on
      until the loop ends with the page. */
  lemma Tracked(s: seq<Entry>, req: Request) returns (track: Scan -> bool)
    requires Sorted(s) && Consistent(s, req.view) && !Stuck(s, req)
    ensures track(Begin(s, req))
    ensures forall c :: track(c) ==> c.pos <= |s| && Closer(s, req, track, c, Step(s, req, c))
    ensures forall c :: track(c) && Step(s, req, c).Over? ==> Ends(s, req)
  {
    var turn, begin := Turn(s, req), Begin(s, req);
    track := c => OnTrack(s, req, c) && Reached(turn, begin, c);
    ScanBegins(s, req);
    assert AfterTurns(turn, begin, 0) == Going(begin);
    forall c | track(c)
      ensures c.pos <= |s| && Closer(s, req, track, c, Step(s, req, c)) && (Step(s, req, c).Over? ==> Ends(s, req))
    {
      StepIsRight(s, req, c);
      ReachedNext(turn, begin, c);
    }
  }

  /** `ListObjects`: walk the cursor from the start key, stop at the first key
      outside the bucket or the prefix, roll keys up and seek past each new
      common prefix, stop when the page is full. It ends on every store on which
      the loop of the source does (ScanEndsIff). (Sorting the common prefixes at
      the end changes nothing: ObjectPaging.PathsAscend.) */
  method ListObjects(s: seq<Entry>, req: Request) returns (page: Page)
    requires Sorted(s) && Consistent(s, req.view) && !Stuck(s, req)
    ensures page == PageOf(s, req)
  {
    var maxKeys, startAfter := req.Limit(), req.After();
    var bucketPrefix := BucketPrefix(req.view.bucket);
    var objects, commonPrefixes: seq<Key>, commonPrefixSet: set<Key> := [], [], {};
    var isTruncated, nextToken := false, [];
    var pos := Seek(s, req.SeekKey());
    ghost var c := Begin(s, req);
    ghost var track := Tracked(s, req);
    while true
      invariant c == Scan(pos, objects, commonPrefixes, commonPrefixSet, nextToken) && track(c) && !isTruncated
      decreases |s| - pos
    {
      ghost var p := Step(s, req, c);
      if pos == |s| {
        break;
      }
      match Visit(req.view, startAfter, s[pos]) {
        case Stop =>
          break;
        case Skip =>
          pos := pos + 1;
        case Roll(dirPrefix) =>
          if dirPrefix !in commonPrefixSet {
            if |objects| + |commonPrefixes| >= maxKeys {
              isTruncated := true;
              break;
            }
            commonPrefixSet := commonPrefixSet + {dirPrefix};
            commonPrefixes := commonPrefixes + [dirPrefix];
            nextToken := AdvanceToken(nextToken, dirPrefix);
          }
          pos := Seek(s, bucketPrefix + dirPrefix + [255]);
        case Show =>
          var obj := s[pos].info;
          if |objects| + |commonPrefixes| >= maxKeys {
            isTruncated := true;
            break;
          }
          objects := objects + [obj];
          nextToken := AdvanceToken(nextToken, obj.key);
          pos := pos + 1;
      }
      c := p.scan;
    }
    if !isTruncated {
      nextToken := [];
    }
    page := Page(objects, commonPrefixes, isTruncated, nextToken, |objects| + |commonPrefixes|);
  }

  // ----- when the loop ends -----

  lemma {:induction false} EndsFrom(s: seq<Entry>, req: Request, track: Scan -> bool, c: Scan)
    requires track(c) && forall x :: track(x) ==> x.pos <= |s| && Closer(s, req, track, x, Step(s, req, x))
    requires forall x :: track(x) && Step(s, req, x).Over? ==> Ends(s, req)
    ensures Ends(s, req)
    decreases |s| - c.pos
  {
    if Step(s, req, c).Going? {
      EndsFrom(s, req, track, Step(s, req, c).scan);
    }
  }

  /** A loop whose every turn keeps what says that it is going never halts. */
  lemma {:induction false} StaysGoing(turn: Scan -> Progress, kept: Progress -> bool, begin: Scan, k: nat)
    requires kept(Going(begin)) && forall c :: kept(Going(c)) ==> kept(turn(c))
    requires forall p :: kept(p) ==> p.Going?
    ensures kept(AfterTurns(turn, begin, k))
  {
    if k > 0 {
      StaysGoing(turn, kept, begin, k - 1);
      var p := AfterTurns(turn, begin, k - 1);
      assert p == Going(p.scan);
    }
  }

  /** The cursor is caught between the skip target of `d` and the key at `m`. */
  ghost predicate Trapped(s: seq<Entry>, req: Request, d: Key, m: nat, c: Scan) {
    d in c.seen && Seek(s, Target(req.view, d)) <= c.pos <= m
  }

  /** The key at `m` is live, behind the start, and follows `d` with 0xFF. */
  ghost predicate Trap(s: seq<Entry>, req: Request, d: Key, m: nat) {
    && Start(s, req) <= m < |s| && IsLive(req.view, s[m])
    && d + [255] <= ObjectKey(req.view.bucket, s[m].raw)
    && RollUp(req.view, ObjectKey(req.view.bucket, s[m].raw)) == (true, d)
  }

  lemma SkipFallsBack(s: seq<Entry>, req: Request, d: Key, m: nat)
    requires Sorted(s) && Trap(s, req, d, m)
    ensures Seek(s, Target(req.view, d)) <= m
  {
    SeekSplits(s, Target(req.view, d));
    PrefixInBucket(req.view.bucket, s[m].raw, d + [255]);
    assert Target(req.view, d) == BucketPrefix(req.view.bucket) + (d + [255]);
    PrefixNotAbove(Target(req.view, d), s[m].raw);
  }

  /** What lies between the skip target and that key rolls up to `d`, if it is
      looked at at all. */
  lemma TrapHolds(s: seq<Entry>, req: Request, d: Key, m: nat, i: nat)
    requires Sorted(s) && Trap(s, req, d, m) && Seek(s, Target(req.view, d)) <= i <= m
    ensures Visit(req.view, req.After(), s[i]) in {Skip, Roll(d)}
    ensures Visit(req.view, req.After(), s[m]) == Roll(d)
  {
    var v, b := req.view, BucketPrefix(req.view.bucket);
    SeekSplits(s, Target(v, d));
    PrefixInBucket(v.bucket, s[m].raw, d + [255]);
    assert Target(v, d) == b + (d + [255]);
    LessIrreflexive(s[m].raw);
    if i < m {
      LessAsymmetric(s[i].raw, s[m].raw);
    }
    PrefixIsConvex(Target(v, d), Target(v, d), s[i].raw, s[m].raw) by {
      LessIrreflexive(Target(v, d));
    }
    assert b <= Target(v, d) <= s[i].raw;
    PrefixInBucket(v.bucket, s[i].raw, d + [255]);
    assert d <= d + [255];
    RollUpIsShared(v, ObjectKey(v.bucket, s[i].raw), ObjectKey(v.bucket, s[m].raw));
    if req.After() != [] {
      BehindStartAfter(s, req, m);
    }
  }

  lemma TrappedForGood(s: seq<Entry>, req: Request, d: Key, m: nat, c: Scan)
    requires Sorted(s) && Trap(s, req, d, m) && Trapped(s, req, d, m, c)
    ensures Step(s, req, c).Going? && Trapped(s, req, d, m, Step(s, req, c).scan)
  {
    TrapHolds(s, req, d, m, c.pos);
    SkipFallsBack(s, req, d, m);
  }

  /** The first trap on the page. */
  lemma FirstTrap(s: seq<Entry>, req: Request, q: nat) returns (r: nat)
    requires TrapAt(s, req, q)
    ensures r <= q && TrapAt(s, req, r) && forall i :: 0 <= i < r ==> !TrapAt(s, req, i)
  {
    if i :| 0 <= i < q && TrapAt(s, req, i) {
      r := FirstTrap(s, req, i);
    } else {
      r := q;
    }
  }

  lemma TrapOf(s: seq<Entry>, req: Request, q: nat) returns (m: nat)
    requires TrapAt(s, req, q)
    ensures Trap(s, req, Visible(s, req)[q].path, m)
  {
    var v, d := req.view, Visible(s, req)[q].path;
    m :| Start(s, req) <= m < |s| && IsLive(v, s[m]) && d + [255] <= ObjectKey(v.bucket, s[m].raw);
    ListingExact(s, v, Start(s, req));
    assert Shows(s, v, Start(s, req), Visible(s, req)[q]);
    var i :| Start(s, req) <= i < |s| && IsLive(v, s[i]) && ItemOf(v, s[i]) == Visible(s, req)[q];
    assert d <= d + [255];
    RollUpIsShared(v, ObjectKey(v.bucket, s[m].raw), ObjectKey(v.bucket, s[i].raw));
  }

  /** Until the trap the loop is on track; then it stays in the trap. */
  ghost predicate HeadsForTrap(s: seq<Entry>, req: Request, q: nat, m: nat, p: Progress) {
    && q < |Visible(s, req)| && Visible(s, req)[q].CommonPrefix? && p.Going?
    && ((OnTrack(s, req, p.scan) && p.scan.Count() <= q) || Trapped(s, req, Visible(s, req)[q].path, m, p.scan))
  }

  lemma StepTowardsTrap(s: seq<Entry>, req: Request, q: nat, m: nat, c: Scan)
    requires Sorted(s) && Consistent(s, req.view) && TrapAt(s, req, q) && forall i :: 0 <= i < q ==> !TrapAt(s, req, i)
    requires Trap(s, req, Visible(s, req)[q].path, m) && OnTrack(s, req, c) && c.Count() <= q
    ensures HeadsForTrap(s, req, q, m, Step(s, req, c))
  {
    var all, d := Visible(s, req), Visible(s, req)[q].path;
    if c.Count() == q && c.pos < |s| && Visit(req.view, req.After(), s[c.pos]).Roll? {
      ScanFinds(s, req.view, all, c);
      SkipFallsBack(s, req, d, m);
    } else {
      StepIsRight(s, req, c);
      if c.Count() == q && c.pos < |s| && Visit(req.view, req.After(), s[c.pos]).Show? {
        ScanFinds(s, req.view, all, c);
      }
    }
  }

  lemma StepInTrap(s: seq<Entry>, req: Request, q: nat, m: nat, c: Scan)
    requires Sorted(s) && Consistent(s, req.view) && TrapAt(s, req, q) && forall i :: 0 <= i < q ==> !TrapAt(s, req, i)
    requires Trap(s, req, Visible(s, req)[q].path, m) && HeadsForTrap(s, req, q, m, Going(c))
    ensures HeadsForTrap(s, req, q, m, Step(s, req, c))
  {
    var d := Visible(s, req)[q].path;
    if Trapped(s, req, d, m, c) {
      TrappedForGood(s, req, d, m, c);
    } else {
      StepTowardsTrap(s, req, q, m, c);
    }
  }

  lemma NeverEnds(s: seq<Entry>, req: Request, q: nat)
    requires Sorted(s) && Consistent(s, req.view) && TrapAt(s, req, q) && forall i :: 0 <= i < q ==> !TrapAt(s, req, i)
    ensures !Ends(s, req)
  {
    var m := TrapOf(s, req, q);
    var turn, kept := Turn(s, req), (p: Progress) => HeadsForTrap(s, req, q, m, p);
    ScanBegins(s, req);
    forall c | kept(Going(c)) ensures kept(turn(c)) {
      StepInTrap(s, req, q, m, c);
    }
    forall k: nat ensures AfterTurns(turn, Begin(s, req), k).Going? {
      StaysGoing(turn, kept, Begin(s, req), k);
    }
  }

  /** The cursor loop ends if and only if no common prefix on the page is followed
      by the byte 0xFF in a live key behind the start. */
  lemma ScanEndsIff(s: seq<Entry>, req: Request)
    requires Sorted(s) && Consistent(s, req.view)
    ensures Ends(s, req) <==> !Stuck(s, req)
  {
    if Stuck(s, req) {
      var q :| TrapAt(s, req, q);
      var first := FirstTrap(s, req, q);
      NeverEnds(s, req, first);
    } else {
      var track := Tracked(s, req);
      EndsFrom(s, req, track, Begin(s, req));
    }
  }

  /** A store without 0xFF behind any rolled-up prefix from the start on sets no traps. */
  lemma SkippableNeverStuck(s: seq<Entry>, req: Request)
    requires Sorted(s) && Consistent(s, req.view) && Skippable(s, req.view, Start(s, req))
    ensures !Stuck(s, req)
  {
    if q :| TrapAt(s, req, q) {
      var m := TrapOf(s, req, q);
    }
  }

  /** A key that sits at the start of a page with 0xFF behind its common prefix. */
  lemma FirstKeyTraps(s: seq<Entry>, req: Request, d: Key)
    requires Sorted(s) && s != [] && Start(s, req) == 0 && IsLive(req.view, s[0])
    requires RollUp(req.view, ObjectKey(req.view.bucket, s[0].raw)) == (true, d)
    requires d + [255] <= ObjectKey(req.view.bucket, s[0].raw)
    ensures Stuck(s, req)
  {
    HeadOfWalk(s, req.view, 0);
    assert TrapAt(s, req, 0);
  }

  /** A bucket with the one object "a/" + 0xFF, listed with delimiter "/". In the
      record, as JSON, the byte has become the replacement character. */
  lemma OneKeyTrapsTheScan(bucket: Key) returns (s: seq<Entry>, req: Request)
    ensures |s| == 1 && req.view.bucket == bucket && Sorted(s) && Consistent(s, req.view)
            && req.After() == req.view.prefix == []
    ensures !Ends(s, req)
  {
    var key: Key := [97, 47, 255];
    req := Request(View(bucket, [], [47]), 1000, [], []);
    s := [Entry(PointerKey(bucket, key), ObjectInfo([97, 47, 239, 191, 189], [], 1, true, false, [], 0))];
    assert ObjectKey(bucket, s[0].raw) == key;
    FolderOfKey(req.view, key);
    SeekSplits(s, req.SeekKey());
    PrefixNotAbove(req.SeekKey(), s[0].raw);
    FirstKeyTraps(s, req, [97, 47]);
    ScanEndsIff(s, req);
  }

  lemma FolderOfKey(v: View, key: Key)
    requires v.prefix == [] && v.delimiter == [47] && key == [97, 47, 255]
    ensures RollUp(v, key) == (true, [97, 47]) && [97, 47] + [255] <= key
  {
    IndexFromIsFirst(key, [47], 0);
    assert !At(key, [47], 0) && At(key, [47], 1);
    assert key[|v.prefix|..] == key && v.prefix + key[..2] == [97, 47];
  }
}
