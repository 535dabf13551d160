/** Following continuation tokens: when do the pages of `ListObjects` add up to
    the whole listing? */
module ObjectPaging {
  import opened Keys
  import opened Sequences
  import opened Records
  import opened ObjectListing

  /** `PutObject` refuses the empty key, so every latest pointer names something. */
  predicate Named(s: seq<Entry>, bucket: Key) {
    forall i {:trigger IsPointer(bucket, s[i])} ::
          0 <= i < |s| && IsPointer(bucket, s[i]) ==> ObjectKey(bucket, s[i].raw) != []
  }

  ghost predicate Sound(s: seq<Entry>, v: View) {
    Sorted(s) && Consistent(s, v) && Named(s, v.bucket)
  }

  /** The pages from this request on all end (PagesEnd). */
  ghost predicate Listable(s: seq<Entry>, req: Request) {
    Sound(s, req.view) && Skippable(s, req.view, Start(s, req))
  }

  // ----- where a page starts -----

  /** The keys that a request's start key lets through. */
  predicate FromStart(req: Request, key: Key) {
    if req.After() == [] then !Less(key, req.view.prefix)
    else if req.view.delimiter != [] && EndsWith(req.After(), req.view.delimiter) then !Less(key, req.After() + [255])
    else Less(req.After(), key)
  }

  lemma StartMeans(s: seq<Entry>, req: Request, i: nat)
    requires Sorted(s) && i < |s| && BucketPrefix(req.view.bucket) <= s[i].raw
    ensures Start(s, req) <= i <==> FromStart(req, ObjectKey(req.view.bucket, s[i].raw))
  {
    var p, t, k := BucketPrefix(req.view.bucket), req.After(), ObjectKey(req.view.bucket, s[i].raw);
    assert s[i].raw == p + k;
    SeekSplits(s, req.SeekKey());
    PrefixCancels(p, k, req.view.prefix);
    PrefixCancels(p, k, t + [0]);
    PrefixCancels(p, k, t + [255]);
    SuccessorIsNext(t, k);
  }

  /** `key` extends `t`, and not with the byte 0xFF. */
  predicate InShadow(t: Key, key: Key) {
    t <= key && |t| < |key| && key[|t|] != 255
  }

  /** The keys that a request asks for. */
  predicate Wanted(req: Request, key: Key) {
    if req.continuationToken != [] then Less(req.continuationToken, key)
    else req.startAfter != [] ==> Less(req.startAfter, key)
  }

  /** How many items fit on a page. */
  function MaxItems(maxKeys: int): nat {
    if maxKeys > 0 then maxKeys else 1000
  }

  /** StartAfter ends in the delimiter and a live key extends it. */
  ghost predicate Hides(s: seq<Entry>, req: Request) {
    && req.After() != [] && req.view.delimiter != [] && EndsWith(req.After(), req.view.delimiter)
    && exists i :: 0 <= i < |s| && IsLive(req.view, s[i]) && InShadow(req.After(), ObjectKey(req.view.bucket, s[i].raw))
  }

  /** The start lets through exactly the live keys asked for, if and only if
      StartAfter does not end in the delimiter or nothing live extends it: the
      source takes such a StartAfter for a common prefix already shown. */
  lemma StartAfterExact(s: seq<Entry>, req: Request)
    requires Sorted(s)
    ensures (forall i :: 0 <= i < |s| && IsLive(req.view, s[i]) ==>
               (Start(s, req) <= i <==> Wanted(req, ObjectKey(req.view.bucket, s[i].raw))))
            <==> !Hides(s, req)
  {
    var v, t := req.view, req.After();
    forall i | 0 <= i < |s| && IsLive(v, s[i])
      ensures (Start(s, req) <= i <==> Wanted(req, ObjectKey(v.bucket, s[i].raw)))
              <==> (t == [] || v.delimiter == [] || !EndsWith(t, v.delimiter)
                  || !InShadow(t, ObjectKey(v.bucket, s[i].raw)))
    {
      if t == [] {
        StartMeans(s, req, i);
        PrefixNotAbove(v.prefix, ObjectKey(v.bucket, s[i].raw));
      } else {
        LetThrough(s, req, i);
      }
    }
  }

  lemma LetThrough(s: seq<Entry>, req: Request, i: nat)
    requires Sorted(s) && req.After() != [] && i < |s| && BucketPrefix(req.view.bucket) <= s[i].raw
    ensures var t, key := req.After(), ObjectKey(req.view.bucket, s[i].raw);
            (Start(s, req) <= i <==> Less(t, key))
            <==> (req.view.delimiter == [] || !EndsWith(t, req.view.delimiter) || !InShadow(t, key))
  {
    var t, key := req.After(), ObjectKey(req.view.bucket, s[i].raw);
    StartMeans(s, req, i);
    SkipsSubtree(t, key);
    if Start(s, req) <= i {
      BehindStartAfter(s, req, i);
    }
    if t <= key {
      PrefixNotAbove(t, key);
      LessIrreflexive(t);
      assert |key| == |t| ==> key == t;
    }
  }

  /** Only a StartAfter below the prefix can make the scan stop on a smaller key. */
  lemma UnblockedStart(s: seq<Entry>, req: Request)
    requires Sorted(s)
    requires req.After() == [] || !Less(req.After(), req.view.prefix)
    ensures !BlockedFrom(s, req.view, Start(s, req))
  {
    var v := req.view;
    if i :| Start(s, req) <= i < |s| && IsPointer(v.bucket, s[i]) && Less(ObjectKey(v.bucket, s[i].raw), v.prefix) {
      var key := ObjectKey(v.bucket, s[i].raw);
      if req.After() == [] {
        StartMeans(s, req, i);
      } else {
        BehindStartAfter(s, req, i);
        LessTransitive(req.After(), key, v.prefix);
      }
    }
  }

  ghost predicate ShowsOf(s: seq<Entry>, req: Request, lets: Key -> bool, x: Item) {
    exists i :: 0 <= i < |s| && IsLive(req.view, s[i]) && lets(ObjectKey(req.view.bucket, s[i].raw))
        && ItemOf(req.view, s[i]) == x
  }

  /** What one page shows: the first MaxKeys items, in ascending order, of the live
      keys that its start lets through, and these are the keys asked for unless
      StartAfter hides some; each item once, version records and delete markers
      never. Truncated pages are full and name their last item. */
  lemma PageIsExact(s: seq<Entry>, req: Request)
    requires Sorted(s) && Consistent(s, req.view) && !BlockedFrom(s, req.view, Start(s, req))
    ensures var all := Visible(s, req);
            && Ascending(all)
            && (forall x :: x in all <==> ShowsOf(s, req, key => FromStart(req, key), x))
            && (!Hides(s, req) ==> forall x :: x in all <==> ShowsOf(s, req, key => Wanted(req, key), x))
            && (PageOf(s, req).isTruncated <==> |all| > MaxItems(req.maxKeys))
            && PageOf(s, req).keyCount == if |all| > MaxItems(req.maxKeys) then MaxItems(req.maxKeys) else |all|
  {
    ListingAscends(s, req.view, Start(s, req));
    ListingExact(s, req.view, Start(s, req));
    StartAfterExact(s, req);
    forall i | 0 <= i < |s| && IsLive(req.view, s[i])
      ensures Start(s, req) <= i <==> FromStart(req, ObjectKey(req.view.bucket, s[i].raw))
    {
      StartMeans(s, req, i);
    }
    forall x
      ensures x in Visible(s, req) <==> ShowsOf(s, req, key => FromStart(req, key), x)
      ensures !Hides(s, req) ==> (x in Visible(s, req) <==> ShowsOf(s, req, key => Wanted(req, key), x))
    {
      assert x in Visible(s, req) <==> Shows(s, req.view, Start(s, req), x);
    }
  }

  /** What is on a page whose items are the first `n` of `all`. */
  ghost predicate Holds(page: Page, all: seq<Item>, n: nat) {
    && n <= |all| && page.keyCount == n == |page.objects| + |page.commonPrefixes|
    && (forall x :: x in page.objects <==> Object(x) in all[..n])
    && (forall d :: d in page.commonPrefixes <==> CommonPrefix(d) in all[..n])
    && (forall i, j :: 0 <= i < j < |page.objects| ==> Less(page.objects[i].key, page.objects[j].key))
    && (forall i, j :: 0 <= i < j < |page.commonPrefixes| ==> Less(page.commonPrefixes[i], page.commonPrefixes[j]))
    && page.nextToken == if !page.isTruncated || n == 0 then [] else NameOf(all[n - 1])
  }

  function NameOf(x: Item): Key {
    if x.Object? then x.info.key else x.path
  }

  /** A page holds the objects and the common prefixes among its items, each in
      ascending order, and if it is truncated the last of all of them is its token. */
  lemma PageHoldsItems(s: seq<Entry>, req: Request)
    requires Sorted(s) && Consistent(s, req.view)
    ensures Holds(PageOf(s, req), Visible(s, req), PageSize(s, req))
  {
    var all, n := Visible(s, req), PageSize(s, req);
    ListingAscends(s, req.view, Start(s, req));
    PathsAscend(all, n);
    ObjectsAscend(all, n);
    forall d ensures PathAmong(all, n, d) <==> CommonPrefix(d) in all[..n] {
      if PathAmong(all, n, d) {
        var m :| 0 <= m < n && all[m] == CommonPrefix(d);
        assert all[..n][m] == CommonPrefix(d);
      }
    }
  }

  lemma {:induction false} ObjectsAscend(items: seq<Item>, n: nat)
    requires n <= |items| && Ascending(items)
    ensures forall x :: x in ObjectsIn(items, n) <==> Object(x) in items[..n]
    ensures forall i, j :: 0 <= i < j < |ObjectsIn(items, n)| ==>
              Less(ObjectsIn(items, n)[i].key, ObjectsIn(items, n)[j].key)
    ensures |ObjectsIn(items, n)| + |PathsIn(items, n)| == n
  {
    if n > 0 {
      ObjectsAscend(items, n - 1);
      assert items[..n] == items[..n - 1] + [items[n - 1]];
      var before := ObjectsIn(items, n - 1);
      forall i | 0 <= i < |before| ensures Less(before[i].key, items[n - 1].Name()) {
        assert before[i] in before;
        var m :| 0 <= m < n - 1 && items[m] == Object(before[i]);
        assert Less(items[m].Name(), items[n - 1].Name());
      }
    }
  }

  /** A StartAfter below the prefix: the page misses what it should show exactly
      when a smaller key lies in between and there is anything to show. */
  lemma StartBelowPrefix(s: seq<Entry>, req: Request)
    ensures Visible(s, req) == Listing(s, req.view, Start(s, req)) <==>
            !BlockedFrom(s, req.view, Start(s, req)) || !exists i :: Start(s, req) <= i < |s| && IsLive(req.view, s[i])
  {
    var from := Start(s, req);
    ListingExact(s, req.view, from);
    var all := Listing(s, req.view, from);
    if all == [] {
      forall i | from <= i < |s| && IsLive(req.view, s[i]) ensures false {
        assert Shows(s, req.view, from, ItemOf(req.view, s[i]));
      }
    } else {
      assert Shows(s, req.view, from, all[0]);
    }
  }

  /** The scan comes to the live key at `i`. */
  ghost predicate Covered(s: seq<Entry>, req: Request, i: nat) {
    Start(s, req) <= i && !BlockedFrom(s, req.view, Start(s, req))
  }

  /** The scan comes to exactly the live keys asked for, if and only if StartAfter
      hides none of them (StartAfterExact) and no key between it and the prefix stops
      the scan, unless nothing is asked for anyway. */
  lemma ScanCoversRequest(s: seq<Entry>, req: Request)
    requires Sorted(s)
    ensures (forall i :: 0 <= i < |s| && IsLive(req.view, s[i]) ==>
               (Covered(s, req, i) <==> Wanted(req, ObjectKey(req.view.bucket, s[i].raw))))
            <==> !Hides(s, req)
                 && (!BlockedFrom(s, req.view, Start(s, req))
                     || forall i :: 0 <= i < |s| && IsLive(req.view, s[i]) ==>
                          !Wanted(req, ObjectKey(req.view.bucket, s[i].raw)))
  {
    StartAfterExact(s, req);
    if Hides(s, req) {
      var i :| 0 <= i < |s| && IsLive(req.view, s[i]) && InShadow(req.After(), ObjectKey(req.view.bucket, s[i].raw));
      PrefixNotAbove(req.After(), ObjectKey(req.view.bucket, s[i].raw));
      NotBehindStart(s, req, i);
    }
  }

  ghost predicate PathAmong(items: seq<Item>, n: nat, d: Key) {
    exists m :: 0 <= m < n && m < |items| && items[m] == CommonPrefix(d)
  }

  /** The common prefixes come out in ascending order, so sorting them is a no-op. */
  lemma {:induction false} PathsAscend(items: seq<Item>, n: nat)
    requires n <= |items| && Ascending(items)
    ensures forall i, j :: 0 <= i < j < |PathsIn(items, n)| ==> Less(PathsIn(items, n)[i], PathsIn(items, n)[j])
    ensures forall d :: d in PathsIn(items, n) <==> PathAmong(items, n, d)
  {
    if n > 0 {
      PathsAscend(items, n - 1);
      var before := PathsIn(items, n - 1);
      forall d ensures PathAmong(items, n, d) <==> PathAmong(items, n - 1, d) || items[n - 1] == CommonPrefix(d) {
        if PathAmong(items, n, d) {
          var m :| 0 <= m < n && items[m] == CommonPrefix(d);
          assert m == n - 1 || PathAmong(items, n - 1, d);
        }
      }
      forall i | 0 <= i < |before| ensures Less(before[i], items[n - 1].Name()) {
        assert PathAmong(items, n - 1, before[i]);
        var m :| 0 <= m < n - 1 && items[m] == CommonPrefix(before[i]);
        assert Less(items[m].Name(), items[n - 1].Name());
      }
    }
  }

  lemma PagesEnd(s: seq<Entry>, req: Request)
    requires Listable(s, req)
    ensures Ends(s, req)
  {
    SkippableNeverStuck(s, req);
    ScanEndsIff(s, req);
  }

  // ----- the token of a truncated page -----

  /** The entry behind the last item of a truncated page. */
  lemma LastShown(s: seq<Entry>, req: Request) returns (i: nat)
    requires Listable(s, req) && Truncated(s, req)
    ensures !BlockedFrom(s, req.view, Start(s, req))
    ensures Start(s, req) <= i < |s| && IsLive(req.view, s[i])
    ensures 0 < PageSize(s, req) == req.Limit() < |Visible(s, req)|
    ensures ItemOf(req.view, s[i]) == Visible(s, req)[PageSize(s, req) - 1]
    ensures PageOf(s, req).nextToken == ItemOf(req.view, s[i]).Name() != []
  {
    i := ShownBy(s, req.view, Start(s, req), Visible(s, req)[PageSize(s, req) - 1]);
  }

  lemma ShownBy(s: seq<Entry>, v: View, from: nat, x: Item) returns (i: nat)
    requires from <= |s| && x in Listing(s, v, from)
    ensures from <= i < |s| && IsLive(v, s[i]) && ItemOf(v, s[i]) == x
  {
    ListingExact(s, v, from);
    i :| from <= i < |s| && IsLive(v, s[i]) && ItemOf(v, s[i]) == x;
  }

  /** A rolled-up prefix ends in the delimiter. */
  lemma RollUpEndsInDelimiter(v: View, key: Key)
    requires v.prefix <= key && RollUp(v, key).0
    ensures v.delimiter != [] && EndsWith(RollUp(v, key).1, v.delimiter)
  {
    var remaining := key[|v.prefix|..];
    var idx := IndexOf(remaining, v.delimiter);
    IndexFromIsFirst(remaining, v.delimiter, 0);
    var d := RollUp(v, key).1;
    assert d == v.prefix + remaining[..idx + |v.delimiter|];
    assert d[|d| - |v.delimiter|..] == remaining[idx..idx + |v.delimiter|];
  }

  /** The next page starts further on and is never blocked: the chain ends. */
  lemma TokenMovesOn(s: seq<Entry>, req: Request)
    requires Listable(s, req) && Truncated(s, req)
    ensures Start(s, req) < Start(s, req.Resume(PageOf(s, req).nextToken))
    ensures !BlockedFrom(s, req.view, Start(s, req.Resume(PageOf(s, req).nextToken)))
  {
    var v := req.view;
    var i := LastShown(s, req);
    var t := PageOf(s, req).nextToken;
    var next := req.Resume(t);
    var key := ObjectKey(v.bucket, s[i].raw);
    PrefixNotAbove(t, key);
    if ItemOf(v, s[i]).CommonPrefix? {
      RollUpEndsInDelimiter(v, key);
      SkipsSubtree(t, key);
    } else {
      LessIrreflexive(t);
      SkipsSubtree(t, t);
    }
    StartMeans(s, next, i);
    PrefixNotAbove(v.prefix, t);
    UnblockedStart(s, next);
  }

  // ----- resuming -----

  lemma {:induction false} AscendingUnique(a: seq<Item>, b: seq<Item>)
    requires Ascending(a) && Ascending(b)
    requires forall x :: x in a <==> x in b
    ensures a == b
  {
    Inhabited(a);
    Inhabited(b);
    if a != [] {
      HeadsAgree(a, b);
      TailMembers(a, b);
      TailMembers(b, a);
      AscendingUnique(a[1..], b[1..]);
      assert a == [a[0]] + a[1..] && b == [b[0]] + b[1..];
    }
  }

  lemma HeadsAgree(a: seq<Item>, b: seq<Item>)
    requires Ascending(a) && Ascending(b) && a != [] && b != []
    requires a[0] in b && b[0] in a
    ensures a[0] == b[0]
  {
    var i :| 0 <= i < |b| && b[i] == a[0];
    var j :| 0 <= j < |a| && a[j] == b[0];
    if i > 0 && j > 0 {
      LessAsymmetric(b[0].Name(), b[i].Name());
    }
  }

  lemma TailMembers(a: seq<Item>, b: seq<Item>)
    requires Ascending(a) && a != [] && b != [] && a[0] == b[0]
    requires forall x :: x in a ==> x in b
    ensures forall x :: x in a[1..] ==> x in b[1..]
  {
    forall x | x in a[1..] ensures x in b[1..] {
      var i :| 0 < i < |a| && a[i] == x;
      LessIrreflexive(x.Name());
      assert Less(a[0].Name(), x.Name());
      assert a[i] in b;
      var j :| 0 <= j < |b| && b[j] == x;
      assert b[1..][j - 1] == x;
    }
  }

  /** Behind position `n` of an ascending listing stand the later names. */
  lemma LaterNames(all: seq<Item>, n: nat, y: Item)
    requires Ascending(all) && 0 < n <= |all|
    ensures y in all[n..] <==> y in all && Less(all[n - 1].Name(), y.Name())
  {
    if y in all[n..] {
      var j :| 0 <= j < |all[n..]| && all[n..][j] == y;
      assert all[n + j] == y;
    }
    if y in all && Less(all[n - 1].Name(), y.Name()) {
      var j :| 0 <= j < |all| && all[j] == y;
      if j < n {
        LessIrreflexive(y.Name());
        if j < n - 1 { LessAsymmetric(all[j].Name(), all[n - 1].Name()); }
      }
      assert all[n..][j - n] == y;
    }
  }

  /** An object listed under a name that ends in the delimiter casts a shadow on
      the keys that extend it: as a token it is taken for a rolled-up prefix. */
  ghost predicate Shadows(s: seq<Entry>, v: View, x: Item) {
    && x.Object? && v.delimiter != [] && EndsWith(x.Name(), v.delimiter)
    && exists m :: 0 <= m < |s| && IsLive(v, s[m]) && InShadow(x.Name(), ObjectKey(v.bucket, s[m].raw))
  }

  /** Without a shadow the next page's start lets through every later item ... */
  lemma LaterIsFromStart(s: seq<Entry>, req: Request, i: nat, m: nat)
    requires Sound(s, req.view) && i < |s| && m < |s| && IsLive(req.view, s[i]) && IsLive(req.view, s[m])
    requires !Shadows(s, req.view, ItemOf(req.view, s[i])) && ItemOf(req.view, s[i]).Name() != []
    requires Less(ItemOf(req.view, s[i]).Name(), ItemOf(req.view, s[m]).Name())
    ensures Start(s, req.Resume(ItemOf(req.view, s[i]).Name())) <= m
  {
    var v := req.view;
    var a, b := ObjectKey(v.bucket, s[i].raw), ObjectKey(v.bucket, s[m].raw);
    var x, y := ItemOf(v, s[i]), ItemOf(v, s[m]);
    var t := x.Name();
    PrefixNotAbove(y.Name(), b);
    BelowThenNotAbove(t, y.Name(), b);
    SkipsSubtree(t, b);
    if t <= b && x.CommonPrefix? {
      RollUpIsShared(v, b, a);
      LessIrreflexive(t);
      assert false;
    }
    LessIrreflexive(t);
    assert t <= b && |t| == |b| ==> b == t;
    assert x.Object? && EndsWith(t, v.delimiter) && v.delimiter != [] ==> !InShadow(t, b);
    StartMeans(s, req.Resume(t), m);
  }

  /** ... and, shadow or not, nothing earlier. */
  lemma FromStartIsLater(s: seq<Entry>, req: Request, i: nat, m: nat)
    requires Listable(s, req) && i < |s| && Start(s, req) <= m < |s| && IsLive(req.view, s[i]) && IsLive(req.view, s[m])
    requires ItemOf(req.view, s[i]).Name() != []
    requires Start(s, req.Resume(ItemOf(req.view, s[i]).Name())) <= m
    ensures Less(ItemOf(req.view, s[i]).Name(), ItemOf(req.view, s[m]).Name())
  {
    var v := req.view;
    var a, b := ObjectKey(v.bucket, s[i].raw), ObjectKey(v.bucket, s[m].raw);
    var x, y := ItemOf(v, s[i]), ItemOf(v, s[m]);
    var t := x.Name();
    StartMeans(s, req.Resume(t), m);
    BehindStartAfter(s, req.Resume(t), m);
    if y.CommonPrefix? && !Less(t, y.path) {
      LessAsymmetric(t, b);
      PrefixIsConvex(y.path, y.path, t, b);
      assert y.path <= t <= a;
      RollUpIsShared(v, a, b);
      RollUpEndsInDelimiter(v, a);
      SkipsSubtree(t, b);
    }
  }

  /** The page behind a token continues the listing right where the page before
      it ended, if and only if the token's object casts no shadow. */
  lemma ResumeExact(s: seq<Entry>, req: Request)
    requires Listable(s, req) && Truncated(s, req)
    ensures var n := PageSize(s, req);
            Visible(s, req.Resume(PageOf(s, req).nextToken)) == Visible(s, req)[n..]
            <==> !Shadows(s, req.view, Visible(s, req)[n - 1])
  {
    var v := req.view;
    var i := LastShown(s, req);
    var all, n, t := Visible(s, req), PageSize(s, req), PageOf(s, req).nextToken;
    var next := req.Resume(t);
    var rest := Visible(s, next);
    TokenMovesOn(s, req);
    ListingExact(s, v, Start(s, req));
    ListingExact(s, v, Start(s, next));
    ListingAscends(s, v, Start(s, req));
    ListingAscends(s, v, Start(s, next));
    if !Shadows(s, v, all[n - 1]) {
      forall y ensures y in all[n..] <==> y in rest {
        LaterNames(all, n, y);
        if y in all[n..] {
          var m :| Start(s, req) <= m < |s| && IsLive(v, s[m]) && ItemOf(v, s[m]) == y;
          LaterIsFromStart(s, req, i, m);
        }
        if y in rest {
          var m :| Start(s, next) <= m < |s| && IsLive(v, s[m]) && ItemOf(v, s[m]) == y;
          FromStartIsLater(s, req, i, m);
        }
      }
      AscendingUnique(all[n..], rest);
    } else {
      var m := ShadowedItem(s, req, i);
      LaterNames(all, n, ItemOf(v, s[m]));
      assert Shows(s, v, Start(s, req), ItemOf(v, s[m]));
      assert !Shows(s, v, Start(s, next), ItemOf(v, s[m]));
    }
  }

  /** A shadowed key's item is later than the token yet shown by no key behind its start. */
  lemma ShadowedItem(s: seq<Entry>, req: Request, i: nat) returns (m: nat)
    requires Sound(s, req.view) && Start(s, req) <= i < |s| && IsLive(req.view, s[i])
    requires ItemOf(req.view, s[i]).Name() != [] && Shadows(s, req.view, ItemOf(req.view, s[i]))
    ensures i < m < |s| && IsLive(req.view, s[m])
    ensures Less(ItemOf(req.view, s[i]).Name(), ItemOf(req.view, s[m]).Name())
    ensures !Shows(s, req.view, Start(s, req.Resume(ItemOf(req.view, s[i]).Name())), ItemOf(req.view, s[m]))
  {
    var v := req.view;
    var t := ItemOf(v, s[i]).Name();
    var next := req.Resume(t);
    m :| 0 <= m < |s| && IsLive(v, s[m]) && InShadow(t, ObjectKey(v.bucket, s[m].raw));
    ShadowIsLater(s, v, i, m);
    assert v.prefix <= t && !RollUp(v, t).0;
    forall q | Start(s, next) <= q < |s| && IsLive(v, s[q]) ensures ItemOf(v, s[q]) != ItemOf(v, s[m]) {
      NotFromShadow(s, next, t, m, q);
    }
  }

  lemma NameIsPrefix(s: seq<Entry>, v: View, m: nat)
    requires Consistent(s, v) && m < |s| && IsLive(v, s[m])
    ensures ItemOf(v, s[m]).Name() <= ObjectKey(v.bucket, s[m].raw)
    ensures !RollUp(v, ObjectKey(v.bucket, s[m].raw)).0 ==> ItemOf(v, s[m]).Name() == ObjectKey(v.bucket, s[m].raw)
  {
  }

  lemma ShadowIsLater(s: seq<Entry>, v: View, i: nat, m: nat)
    requires Sound(s, v) && i < |s| && m < |s| && IsLive(v, s[i]) && IsLive(v, s[m])
    requires ItemOf(v, s[i]).Object? && InShadow(ItemOf(v, s[i]).Name(), ObjectKey(v.bucket, s[m].raw))
    ensures i < m && Less(ItemOf(v, s[i]).Name(), ItemOf(v, s[m]).Name())
  {
    var t, b := ObjectKey(v.bucket, s[i].raw), ObjectKey(v.bucket, s[m].raw);
    PrefixNotAbove(t, b);
    RawOrder(v.bucket, s[i].raw, s[m].raw);
    LessAsymmetric(s[i].raw, s[m].raw);
    assert i < m;
    ItemsAscend(s, v, i, m);
  }

  /** The start behind `t` lets no key through that shares an item with a shadowed one. */
  lemma NotFromShadow(s: seq<Entry>, next: Request, t: Key, m: nat, q: nat)
    requires Sound(s, next.view) && m < |s| && IsLive(next.view, s[m])
    requires next.After() == t != [] && next.view.delimiter != [] && EndsWith(t, next.view.delimiter)
    requires next.view.prefix <= t && !RollUp(next.view, t).0
    requires InShadow(t, ObjectKey(next.view.bucket, s[m].raw))
    requires Start(s, next) <= q < |s| && IsLive(next.view, s[q])
    ensures ItemOf(next.view, s[q]) != ItemOf(next.view, s[m])
  {
    var v := next.view;
    var b, k := ObjectKey(v.bucket, s[m].raw), ObjectKey(v.bucket, s[q].raw);
    NameIsPrefix(s, v, m);
    NameIsPrefix(s, v, q);
    ShadowCovers(v, t, b);
    if ItemOf(v, s[q]) == ItemOf(v, s[m]) {
      InShadowToo(t, ItemOf(v, s[m]).Name(), b, k);
      StartMeans(s, next, q);
      SkipsSubtree(t, k);
    }
  }

  lemma InShadowToo(t: Key, y: Key, b: Key, k: Key)
    requires InShadow(t, b) && y <= b && y <= k && |t| < |y|
    ensures InShadow(t, k)
  {
    assert b[..|y|] == k[..|y|];
    assert b[..|y|][..|t|] == t && b[..|y|][|t|] == k[..|y|][|t|];
    assert k[..|t|] == k[..|y|][..|t|];
  }

  /** The item of a shadowed key reaches beyond the shadow's name. */
  lemma ShadowCovers(v: View, t: Key, b: Key)
    requires v.prefix <= t && EndsWith(t, v.delimiter) && v.delimiter != [] && !RollUp(v, t).0
    requires InShadow(t, b)
    ensures RollUp(v, b).0 ==> t <= RollUp(v, b).1 && |t| < |RollUp(v, b).1|
  {
    if RollUp(v, b).0 {
      var d := RollUp(v, b).1;
      if |d| <= |t| {
        assert d == b[..|d|] == t[..|d|];
        RollUpIsShared(v, t, b);
      }
      assert t == b[..|t|] == d[..|t|];
    }
  }

  // ----- the whole chain of pages -----

  /** The items of a page followed by those of all pages behind its token. */
  ghost function Chain(s: seq<Entry>, req: Request): seq<Item>
    requires Listable(s, req)
    decreases |s| - Start(s, req)
  {
    var page := PageOf(s, req);
    Visible(s, req)[..page.keyCount] +
    if !page.isTruncated then []
    else
      TokenMovesOn(s, req);
      Chain(s, req.Resume(page.nextToken))
  }

  /** No truncated page of the chain ends on an object that casts a shadow. */
  ghost predicate ShadowFree(s: seq<Entry>, req: Request)
    requires Listable(s, req)
    decreases |s| - Start(s, req)
  {
    var page := PageOf(s, req);
    page.isTruncated ==>
      && !Shadows(s, req.view, Visible(s, req)[page.keyCount - 1])
      && (TokenMovesOn(s, req); ShadowFree(s, req.Resume(page.nextToken)))
  }

  /** A page behind a token shows no more than what is left of the listing, and
      less than that behind a shadow. */
  lemma ResumeIsShorter(s: seq<Entry>, req: Request)
    requires Listable(s, req) && Truncated(s, req)
    ensures var n := PageSize(s, req);
            var rest := Visible(s, req.Resume(PageOf(s, req).nextToken));
            |rest| <= |Visible(s, req)| - n
                && (Shadows(s, req.view, Visible(s, req)[n - 1]) ==> |rest| < |Visible(s, req)| - n)
  {
    var v := req.view;
    var i := LastShown(s, req);
    var all, n, t := Visible(s, req), PageSize(s, req), PageOf(s, req).nextToken;
    var next := req.Resume(t);
    var rest := Visible(s, next);
    TokenMovesOn(s, req);
    ListingExact(s, v, Start(s, req));
    ListingExact(s, v, Start(s, next));
    ListingAscends(s, v, Start(s, req));
    ListingAscends(s, v, Start(s, next));
    forall y | y in rest ensures y in all[n..] {
      var m :| Start(s, next) <= m < |s| && IsLive(v, s[m]) && ItemOf(v, s[m]) == y;
      FromStartIsLater(s, req, i, m);
      LaterNames(all, n, y);
      assert Shows(s, v, Start(s, req), y);
    }
    SubListing(rest, all[n..]);
    ResumeExact(s, req);
  }

  /** An ascending sublist is shorter or the same. */
  lemma SubListing(a: seq<Item>, b: seq<Item>)
    requires Ascending(a) && Ascending(b) && forall x :: x in a ==> x in b
    ensures |a| <= |b| && (|a| == |b| ==> a == b)
  {
    var sa, sb := set x | x in a, set x | x in b;
    AscendingSize(a);
    AscendingSize(b);
    assert sa <= sb;
    Cardinality(sa, sb);
    if |a| == |b| {
      assert forall x :: x in a <==> x in sa;
      assert forall x :: x in b <==> x in sb;
      AscendingUnique(a, b);
    }
  }

  lemma {:induction false} Cardinality(a: set<Item>, b: set<Item>)
    requires a <= b
    ensures |a| <= |b| && (|a| == |b| ==> a == b)
    decreases a
  {
    if x :| x in a {
      Cardinality(a - {x}, b - {x});
    }
  }

  lemma {:induction false} AscendingSize(a: seq<Item>)
    requires Ascending(a)
    ensures |set x | x in a| == |a|
  {
    if a != [] {
      AscendingSize(a[1..]);
      LessIrreflexive(a[0].Name());
      assert a[0] !in a[1..];
      assert (set x | x in a) == {a[0]} + set x | x in a[1..];
    }
  }

  lemma ChainUnfolds(s: seq<Entry>, req: Request, next: Request)
    requires Listable(s, req) && Truncated(s, req) && next == req.Resume(PageOf(s, req).nextToken)
    ensures Listable(s, next) && Chain(s, req) == Visible(s, req)[..PageSize(s, req)] + Chain(s, next)
  {
    TokenMovesOn(s, req);
  }

  lemma ShadowFreeUnfolds(s: seq<Entry>, req: Request, next: Request)
    requires Listable(s, req) && Truncated(s, req) && next == req.Resume(PageOf(s, req).nextToken)
    ensures Listable(s, next)
    ensures ShadowFree(s, req) <==> !Shadows(s, req.view, Visible(s, req)[PageSize(s, req) - 1]) && ShadowFree(s, next)
  {
    TokenMovesOn(s, req);
  }

  /** Following the tokens yields at most the items of the listing, and all of
      them, each once and in order, exactly when the chain is shadow-free. */
  lemma {:induction false} ChainExact(s: seq<Entry>, req: Request)
    requires Listable(s, req)
    ensures |Chain(s, req)| <= |Visible(s, req)|
    ensures Chain(s, req) == Visible(s, req) <==> ShadowFree(s, req)
    decreases |s| - Start(s, req)
  {
    if Truncated(s, req) {
      var next := req.Resume(PageOf(s, req).nextToken);
      TokenMovesOn(s, req);
      ChainUnfolds(s, req, next);
      ShadowFreeUnfolds(s, req, next);
      ResumeIsShorter(s, req);
      ResumeExact(s, req);
      ChainExact(s, next);
      Splice(Visible(s, req), PageSize(s, req), Chain(s, next));
    }
  }

  /** Nothing that the request shows casts a shadow. */
  ghost predicate NoShadows(s: seq<Entry>, req: Request) {
    forall x :: x in Visible(s, req) ==> !Shadows(s, req.view, x)
  }

  function WithLimit(req: Request, m: int): Request {
    req.(maxKeys := m)
  }

  lemma {:induction false} NoShadowsIsShadowFree(s: seq<Entry>, req: Request)
    requires Listable(s, req) && NoShadows(s, req)
    ensures ShadowFree(s, req)
    decreases |s| - Start(s, req)
  {
    if Truncated(s, req) {
      TokenMovesOn(s, req);
      ResumeExact(s, req);
      NoShadowsIsShadowFree(s, req.Resume(PageOf(s, req).nextToken));
    }
  }

  lemma SingleItemStep(s: seq<Entry>, req: Request) returns (next: Request)
    requires Listable(s, req) && req.maxKeys == 1 && Truncated(s, req) && ShadowFree(s, req)
    ensures next == req.Resume(PageOf(s, req).nextToken) && Start(s, req) < Start(s, next)
    ensures ShadowFree(s, next) && !BlockedFrom(s, req.view, Start(s, next))
    ensures Visible(s, next) == Visible(s, req)[1..] && !Shadows(s, req.view, Visible(s, req)[0])
  {
    next := req.Resume(PageOf(s, req).nextToken);
    TokenMovesOn(s, req);
    ResumeExact(s, req);
    assert PageSize(s, req) == 1;
  }

  /** One item a page: every item but the last is a token, and the last shadows nothing. */
  lemma {:induction false} SingleItemPagesMeetShadows(s: seq<Entry>, req: Request)
    requires Listable(s, req) && req.maxKeys == 1 && ShadowFree(s, req) && !BlockedFrom(s, req.view, Start(s, req))
    ensures NoShadows(s, req)
    decreases |s| - Start(s, req)
  {
    if Truncated(s, req) {
      var next := SingleItemStep(s, req);
      SingleItemPagesMeetShadows(s, next);
      HeadAndRest(s, req, next);
    } else {
      LastPageShadowsNothing(s, req);
    }
  }

  /** Behind an item that casts a shadow the listing goes on. */
  lemma ShadowHasLater(s: seq<Entry>, req: Request, x: Item) returns (y: Item)
    requires Listable(s, req) && x in Listing(s, req.view, Start(s, req)) && Shadows(s, req.view, x)
    ensures y in Listing(s, req.view, Start(s, req)) && Less(x.Name(), y.Name())
  {
    var i := ShownBy(s, req.view, Start(s, req), x);
    var m := ShadowedItem(s, req, i);
    Listed(s, req.view, Start(s, req), m);
    y := ItemOf(req.view, s[m]);
  }

  lemma OnlyItem(all: seq<Item>, y: Item)
    requires |all| == 1 && y in all
    ensures !Less(all[0].Name(), y.Name())
  {
    LessIrreflexive(y.Name());
  }

  lemma SoleItemShadowsNothing(s: seq<Entry>, req: Request, all: seq<Item>)
    requires Listable(s, req) && all == Listing(s, req.view, Start(s, req)) && |all| == 1
    ensures !Shadows(s, req.view, all[0])
  {
    if Shadows(s, req.view, all[0]) {
      var y := ShadowHasLater(s, req, all[0]);
      OnlyItem(all, y);
    }
  }

  lemma LastPageShadowsNothing(s: seq<Entry>, req: Request)
    requires Listable(s, req) && !BlockedFrom(s, req.view, Start(s, req)) && |Visible(s, req)| <= 1
    ensures NoShadows(s, req)
  {
    var all := Visible(s, req);
    forall x | x in all ensures !Shadows(s, req.view, x) {
      assert x == all[0];
      SoleItemShadowsNothing(s, req, all);
    }
  }

  lemma Listed(s: seq<Entry>, v: View, from: nat, m: nat)
    requires from <= m < |s| && IsLive(v, s[m])
    ensures ItemOf(v, s[m]) in Listing(s, v, from)
  {
    ListingExact(s, v, from);
    assert Shows(s, v, from, ItemOf(v, s[m]));
  }

  lemma HeadAndRest(s: seq<Entry>, req: Request, next: Request)
    requires Visible(s, req) != [] && Visible(s, next) == Visible(s, req)[1..] && next.view == req.view
    requires !Shadows(s, req.view, Visible(s, req)[0]) && NoShadows(s, next)
    ensures NoShadows(s, req)
  {
    assert Visible(s, req) == [Visible(s, req)[0]] + Visible(s, next);
  }

  /** Whatever MaxKeys is, following the tokens lists every live key or common
      prefix exactly once in order; this holds for all page sizes if and only if
      no listed object whose key ends in the delimiter has a live extension. */
  lemma ChainCompleteForAllPageSizes(s: seq<Entry>, req: Request)
    requires Listable(s, req) && !BlockedFrom(s, req.view, Start(s, req))
    ensures (forall m :: Chain(s, WithLimit(req, m)) == Visible(s, req)) <==> NoShadows(s, req)
  {
    if NoShadows(s, req) {
      forall m ensures Chain(s, WithLimit(req, m)) == Visible(s, req) {
        CompleteWithoutShadows(s, req, m);
      }
    }
    if forall m :: Chain(s, WithLimit(req, m)) == Visible(s, req) {
      ShadowsBreakSingleItemPages(s, req);
    }
  }

  lemma CompleteWithoutShadows(s: seq<Entry>, req: Request, m: int)
    requires Listable(s, req) && NoShadows(s, req)
    ensures Chain(s, WithLimit(req, m)) == Visible(s, req)
  {
    NoShadowsIsShadowFree(s, WithLimit(req, m));
    ChainExact(s, WithLimit(req, m));
  }

  lemma ShadowsBreakSingleItemPages(s: seq<Entry>, req: Request)
    requires Listable(s, req) && !BlockedFrom(s, req.view, Start(s, req))
    requires Chain(s, WithLimit(req, 1)) == Visible(s, req)
    ensures NoShadows(s, req)
  {
    ChainExact(s, WithLimit(req, 1));
    SingleItemPagesMeetShadows(s, WithLimit(req, 1));
  }

  /** Without a delimiter, or when keys never end in it, there are no shadows. */
  lemma PlainListingsAreComplete(s: seq<Entry>, req: Request)
    requires Listable(s, req)
    requires req.After() == [] || !Less(req.After(), req.view.prefix)
    requires req.view.delimiter == [] || forall i :: 0 <= i < |s| && IsLive(req.view, s[i]) ==>
               var key := ObjectKey(req.view.bucket, s[i].raw);
               EndsWith(key, req.view.delimiter) ==> RollUp(req.view, key).0
    ensures Chain(s, req) == Visible(s, req)
  {
    UnblockedStart(s, req);
    ListingExact(s, req.view, Start(s, req));
    forall x | x in Visible(s, req) ensures !Shadows(s, req.view, x) {
      assert Shows(s, req.view, Start(s, req), x);
    }
    NoShadowsIsShadowFree(s, req);
    ChainExact(s, req);
  }

  lemma NotBehindStart(s: seq<Entry>, req: Request, i: nat)
    requires Sorted(s) && i < |s| && IsLive(req.view, s[i])
             && InShadow(req.After(), ObjectKey(req.view.bucket, s[i].raw))
    requires req.After() != [] && req.view.delimiter != [] && EndsWith(req.After(), req.view.delimiter)
    ensures i < Start(s, req)
  {
    LetThrough(s, req, i);
    PrefixNotAbove(req.After(), ObjectKey(req.view.bucket, s[i].raw));
  }

  /** A bucket with the objects "a" and "b", listed with prefix "b" and StartAfter
      "0": the scan stops at "a" and shows nothing. */
  lemma StartBelowPrefixHidesAll(bucket: Key) returns (s: seq<Entry>, req: Request)
    ensures |s| == 2 && req.view.bucket == bucket && req.After() == [48] && req.view.prefix == [98]
    ensures Listable(s, req)
    ensures Visible(s, req) == [] && Listing(s, req.view, Start(s, req)) == [Object(s[1].info)]
  {
    var a, b, zero: Key := [97], [98], [48];
    req := Request(View(bucket, b, []), 1000, [], zero);
    s := [Entry(PointerKey(bucket, a), ObjectInfo(a, [], 1, true, false, [], 0)),
          Entry(PointerKey(bucket, b), ObjectInfo(b, [], 2, true, false, [], 0))];
    assert ObjectKey(bucket, s[0].raw) == a && ObjectKey(bucket, s[1].raw) == b;
    PrefixCancels(BucketPrefix(bucket), a, b);
    assert Less(zero, a) && Less(a, b) && Less(zero, b);
    StartMeans(s, req, 0);
    assert BlockedFrom(s, req.view, Start(s, req));
    assert Listing(s, req.view, 2) == [];
    assert Listing(s, req.view, 1) == [Object(s[1].info)];
    assert Listing(s, req.view, 0) == Listing(s, req.view, 1);
  }
}
