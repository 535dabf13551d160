/** `ListMultipartUploads`: the uploads in progress, by key and upload id, paged by
    the pair that ended the page before. A record's version id is its upload id. */
module UploadListing {
  import opened Keys
  import opened Sequences
  import opened Records

  datatype Request = Request(bucket: Key, prefix: Key, keyMarker: Key, uploadIdMarker: Key, maxUploads: int)
  {
    function Limit(): (n: nat)
      ensures n > 0
    {
      if maxUploads <= 0 then 1000 else maxUploads
    }

    function SeekKey(): Key {
      if keyMarker != [] then VersionKey(bucket, keyMarker, uploadIdMarker) else BucketPrefix(bucket) + prefix
    }

    function Resume(x: ObjectInfo): Request {
      this.(keyMarker := x.key, uploadIdMarker := x.versionId)
    }
  }

  /** The caller already has the entry that the markers name. */
  predicate IsMarker(req: Request, x: ObjectInfo) {
    req.keyMarker != [] && x.key == req.keyMarker && x.versionId == req.uploadIdMarker
  }

  predicate Continues(s: seq<Entry>, req: Request, pos: nat) {
    pos < |s| && BucketPrefix(req.bucket) <= s[pos].raw && req.prefix <= s[pos].info.key
  }

  /** The uploads from `pos` on, but for the marker's. */
  function Uploads(s: seq<Entry>, req: Request, pos: nat): seq<ObjectInfo>
    decreases |s| - pos
  {
    if !Continues(s, req, pos) then []
    else if IsMarker(req, s[pos].info) then Uploads(s, req, pos + 1)
    else [s[pos].info] + Uploads(s, req, pos + 1)
  }

  function Visible(s: seq<Entry>, req: Request): seq<ObjectInfo> {
    Uploads(s, req, Seek(s, req.SeekKey()))
  }

  function PageSize(s: seq<Entry>, req: Request): (n: nat)
    ensures n <= |Visible(s, req)|
  {
    if |Visible(s, req)| <= req.Limit() then |Visible(s, req)| else req.Limit()
  }

  predicate Truncated(s: seq<Entry>, req: Request) {
    |Visible(s, req)| > req.Limit()
  }

  method ListMultipartUploads(s: seq<Entry>, req: Request) returns (uploads: seq<ObjectInfo>, truncated: bool)
    ensures uploads == Visible(s, req)[..PageSize(s, req)] && (truncated <==> Truncated(s, req))
    ensures var room := if req.maxUploads > 0 then req.maxUploads else 1000;
            if truncated then |uploads| == room < |Visible(s, req)| else uploads == Visible(s, req) && |uploads| <= room
  {
    uploads, truncated := [], false;
    var pos := Seek(s, req.SeekKey());
    while Continues(s, req, pos)
      invariant |uploads| <= req.Limit() && Visible(s, req) == uploads + Uploads(s, req, pos)
      decreases |s| - pos
    {
      if IsMarker(req, s[pos].info) {
        pos := pos + 1;
        continue;
      }
      if |uploads| >= req.Limit() {
        truncated := true;
        return;
      }
      uploads := uploads + [s[pos].info];
      pos := pos + 1;
    }
  }

  // ----- what the pages add up to -----

  /** Upload records carry the key and the id they are stored under. */
  predicate Consistent(s: seq<Entry>, bucket: Key) {
    forall i {:trigger InBucket(bucket, s[i])} :: 0 <= i < |s| && InBucket(bucket, s[i]) ==>
      s[i].raw == VersionKey(bucket, s[i].info.key, s[i].info.versionId) && 0 !in s[i].info.key && s[i].info.key != []
  }

  ghost predicate Pageable(s: seq<Entry>, req: Request) {
    Sorted(s) && Consistent(s, req.bucket) && 0 !in req.prefix
  }

  function WithoutMarker(req: Request): Request {
    req.(keyMarker := [], uploadIdMarker := [])
  }

  function First(s: seq<Entry>, req: Request): nat {
    Seek(s, WithoutMarker(req).SeekKey())
  }

  /** All uploads with the prefix. */
  function AllUploads(s: seq<Entry>, req: Request): seq<ObjectInfo> {
    Visible(s, WithoutMarker(req))
  }

  lemma HasPrefix(bucket: Key, prefix: Key, x: ObjectInfo)
    requires 0 !in prefix
    ensures prefix <= x.key <==> BucketPrefix(bucket) + prefix <= VersionKey(bucket, x.key, x.versionId)
  {
    var p, rest := BucketPrefix(bucket), x.key + [0] + x.versionId;
    assert VersionKey(bucket, x.key, x.versionId) == p + rest;
    if p + prefix <= p + rest {
      assert (p + rest)[|p|..] == rest && (p + prefix)[|p|..] == prefix;
      assert prefix == rest[..|prefix|];
      forall n | 0 <= n < |prefix| ensures rest[n] != 0 {
        assert rest[n] == prefix[n];
      }
      assert rest[|x.key|] == 0;
    }
  }

  /** The listing shows exactly the records with the prefix, in record order. */
  lemma {:induction false} UploadsAreExact(s: seq<Entry>, req: Request, pos: nat, i: nat)
    requires Pageable(s, req) && req.keyMarker == [] && First(s, req) <= pos <= i < |s|
    requires InBucket(req.bucket, s[i]) && req.prefix <= s[i].info.key
    ensures i - pos < |Uploads(s, req, pos)| && Uploads(s, req, pos)[i - pos] == s[i].info
    decreases |s| - pos
  {
    ContinuesUpTo(s, req, pos, i);
    if pos < i {
      UploadsAreExact(s, req, pos + 1, i);
    }
  }

  /** The records with the prefix lie together, right behind the first seek. */
  lemma ContinuesUpTo(s: seq<Entry>, req: Request, pos: nat, i: nat)
    requires Pageable(s, req) && req.keyMarker == [] && First(s, req) <= pos <= i < |s|
    requires InBucket(req.bucket, s[i]) && req.prefix <= s[i].info.key
    ensures Continues(s, req, pos)
  {
    RawHasPrefix(s, BucketPrefix(req.bucket) + req.prefix, req, pos, i);
    assert BucketPrefix(req.bucket) <= BucketPrefix(req.bucket) + req.prefix <= s[pos].raw;
    assert InBucket(req.bucket, s[pos]);
    HasPrefix(req.bucket, req.prefix, s[pos].info);
  }

  lemma RawHasPrefix(s: seq<Entry>, p: Key, req: Request, pos: nat, i: nat)
    requires Pageable(s, req) && p == BucketPrefix(req.bucket) + req.prefix && Seek(s, p) <= pos <= i < |s|
    requires InBucket(req.bucket, s[i]) && req.prefix <= s[i].info.key
    ensures p <= s[pos].raw
  {
    SeekSplits(s, p);
    HasPrefix(req.bucket, req.prefix, s[i].info);
    if pos < i {
      LessAsymmetric(s[pos].raw, s[i].raw);
      PrefixIsConvex(p, p, s[pos].raw, s[i].raw);
    }
  }

  /** Without a marker, line `k` is the `k`-th record from the start. */
  lemma {:induction false} UploadAt(s: seq<Entry>, req: Request, pos: nat, k: nat)
    requires req.keyMarker == [] && k < |Uploads(s, req, pos)|
    ensures pos + k < |s| && Continues(s, req, pos + k) && Uploads(s, req, pos)[k] == s[pos + k].info
    ensures Uploads(s, req, pos)[k..] == Uploads(s, req, pos + k)
    decreases k
  {
    if k > 0 {
      UploadAt(s, req, pos + 1, k - 1);
      assert Uploads(s, req, pos)[k..] == Uploads(s, req, pos + 1)[k - 1..];
    }
  }

  /** Behind the marker's record the marker changes nothing. */
  lemma {:induction false} MarkerIsOnce(s: seq<Entry>, req: Request, x: ObjectInfo, pos: nat, i: nat)
    requires Sorted(s) && i < pos && i < |s| && s[i].raw == VersionKey(req.bucket, x.key, x.versionId)
    requires Consistent(s, req.bucket)
    ensures Uploads(s, req.Resume(x), pos) == Uploads(s, WithoutMarker(req), pos)
    decreases |s| - pos
  {
    if Continues(s, req, pos) {
      MarkerIsOnce(s, req, x, pos + 1, i);
      LessIrreflexive(s[i].raw);
      assert Less(s[i].raw, s[pos].raw) && InBucket(req.bucket, s[pos]);
    }
  }

  /** A marker that names a listed upload resumes right behind it. */
  lemma MarkerResumes(s: seq<Entry>, req: Request, k: nat)
    requires Pageable(s, req) && k < |AllUploads(s, req)|
    ensures Visible(s, req.Resume(AllUploads(s, req)[k])) == AllUploads(s, req)[k + 1..]
  {
    var plain, all, first := WithoutMarker(req), AllUploads(s, req), First(s, req);
    var i, x := first + k, all[k];
    UploadAt(s, plain, first, k);
    assert InBucket(req.bucket, s[i]);
    FoundAtSeek(s, s[i].raw, i);
    MarkerIsOnce(s, req, x, i + 1, i);
    assert all[k + 1..] == all[k..][1..];
  }

  ghost predicate Reached(s: seq<Entry>, req: Request) {
    exists j :: 0 <= j <= |AllUploads(s, req)| && Visible(s, req) == AllUploads(s, req)[j..]
  }

  function NextRequest(s: seq<Entry>, req: Request): Request
    requires Truncated(s, req)
  {
    req.Resume(Visible(s, req)[PageSize(s, req) - 1])
  }

  lemma NextPage(s: seq<Entry>, req: Request)
    requires Pageable(s, req) && Reached(s, req) && Truncated(s, req)
    ensures Reached(s, NextRequest(s, req)) && Visible(s, NextRequest(s, req)) == Visible(s, req)[PageSize(s, req)..]
  {
    var j :| 0 <= j <= |AllUploads(s, req)| && Visible(s, req) == AllUploads(s, req)[j..];
    ResumeBehind(s, req, Visible(s, req), PageSize(s, req), j);
  }

  lemma ResumeBehind(s: seq<Entry>, req: Request, shown: seq<ObjectInfo>, n: nat, j: nat)
    requires Pageable(s, req) && j <= |AllUploads(s, req)| && shown == AllUploads(s, req)[j..] && 0 < n <= |shown|
    ensures Visible(s, req.Resume(shown[n - 1])) == shown[n..] && Reached(s, req.Resume(shown[n - 1]))
  {
    var all := AllUploads(s, req);
    MarkerResumes(s, req, j + n - 1);
    assert all[j..][n..] == all[j + n..];
    assert AllUploads(s, req.Resume(shown[n - 1])) == all;
  }

  /** The uploads of a page followed by those of all pages behind its markers. */
  ghost function Chain(s: seq<Entry>, req: Request): seq<ObjectInfo>
    requires Pageable(s, req) && Reached(s, req)
    decreases |Visible(s, req)|
  {
    Visible(s, req)[..PageSize(s, req)] +
    if !Truncated(s, req) then []
    else
      NextPage(s, req);
      Chain(s, NextRequest(s, req))
  }

  lemma ChainUnfolds(s: seq<Entry>, req: Request)
    requires Pageable(s, req) && Reached(s, req) && Truncated(s, req)
    ensures Reached(s, NextRequest(s, req))
    ensures Chain(s, req) == Visible(s, req)[..PageSize(s, req)] + Chain(s, NextRequest(s, req))
  {
    NextPage(s, req);
  }

  lemma {:induction false} ChainIsVisible(s: seq<Entry>, req: Request)
    requires Pageable(s, req) && Reached(s, req)
    ensures Chain(s, req) == Visible(s, req)
    decreases |Visible(s, req)|
  {
    if Truncated(s, req) {
      NextPage(s, req);
      ChainUnfolds(s, req);
      ChainIsVisible(s, NextRequest(s, req));
      Splice(Visible(s, req), PageSize(s, req), Visible(s, NextRequest(s, req)));
    }
  }

  lemma ChainFromFirst(s: seq<Entry>, req: Request)
    requires Pageable(s, req) && req.keyMarker == []
    ensures Reached(s, req) && Chain(s, req) == Uploads(s, req, First(s, req))
  {
    SameWithoutMarker(s, req, First(s, req));
    assert Visible(s, req) == AllUploads(s, req)[0..];
    ChainIsVisible(s, req);
  }

  /** Following the markers lists every upload with the prefix exactly once, in
      the order of the records, whatever the page size. */
  lemma ChainListsAllUploads(s: seq<Entry>, req: Request, i: nat)
    requires Pageable(s, req) && req.keyMarker == [] && i < |s| && InBucket(req.bucket, s[i])
    ensures Reached(s, req)
    ensures var first := First(s, req);
            && (req.prefix <= s[i].info.key
               ==> first <= i < first + |Chain(s, req)| && Chain(s, req)[i - first] == s[i].info)
            && (first <= i < first + |Chain(s, req)| ==> req.prefix <= s[i].info.key)
  {
    ChainFromFirst(s, req);
    LineOfRecord(s, req, First(s, req), i);
  }

  lemma LineOfRecord(s: seq<Entry>, req: Request, first: nat, i: nat)
    requires Pageable(s, req) && req.keyMarker == [] && first == First(s, req) && i < |s| && InBucket(req.bucket, s[i])
    ensures req.prefix <= s[i].info.key
            ==> first <= i < first + |Uploads(s, req, first)| && Uploads(s, req, first)[i - first] == s[i].info
    ensures first <= i < first + |Uploads(s, req, first)| ==> req.prefix <= s[i].info.key
  {
    if req.prefix <= s[i].info.key {
      HasPrefix(req.bucket, req.prefix, s[i].info);
      SeekSplits(s, BucketPrefix(req.bucket) + req.prefix);
      PrefixNotAbove(BucketPrefix(req.bucket) + req.prefix, s[i].raw);
      UploadsAreExact(s, req, first, i);
    } else if first <= i < first + |Uploads(s, req, first)| {
      UploadAt(s, req, first, i - first);
    }
  }

  lemma {:induction false} SameWithoutMarker(s: seq<Entry>, req: Request, pos: nat)
    requires req.keyMarker == []
    ensures Uploads(s, req, pos) == Uploads(s, WithoutMarker(req), pos)
    decreases |s| - pos
  {
    if Continues(s, req, pos) {
      SameWithoutMarker(s, req, pos + 1);
    }
  }

  // ----- markers below the prefix -----

  /** All uploads with the prefix from `pos` on, but for the marker's. */
  function Matching(s: seq<Entry>, req: Request, pos: nat): seq<ObjectInfo>
    decreases |s| - pos
  {
    if pos >= |s| then []
    else if InBucket(req.bucket, s[pos]) && req.prefix <= s[pos].info.key && !IsMarker(req, s[pos].info) then
      [s[pos].info] + Matching(s, req, pos + 1)
    else Matching(s, req, pos + 1)
  }

  /** An upload at or behind `pos` whose key lies below the prefix. */
  ghost predicate BlockedFrom(s: seq<Entry>, req: Request, pos: nat) {
    exists i :: pos <= i < |s| && InBucket(req.bucket, s[i]) && Less(s[i].info.key, req.prefix)
  }

  /** A record lies below the prefix exactly when its key does. */
  lemma BelowPrefix(bucket: Key, prefix: Key, x: ObjectInfo)
    requires 0 !in prefix
    ensures Less(x.key, prefix) <==> Less(VersionKey(bucket, x.key, x.versionId), BucketPrefix(bucket) + prefix)
  {
    var p, rest := BucketPrefix(bucket), x.key + [0] + x.versionId;
    assert VersionKey(bucket, x.key, x.versionId) == p + rest;
    PrefixCancels(p, rest, prefix);
    if Less(x.key, prefix) {
      LessMeans(x.key, prefix);
      var n: nat :| Differs(x.key, prefix, n);
      assert prefix[n] in prefix && rest[..n] == x.key[..n];
      assert Differs(rest, prefix, n);
      LessMeans(rest, prefix);
    }
    if Less(rest, prefix) {
      PrefixNotAbove(x.key, rest);
      NotAboveThenBelow(x.key, rest, prefix);
    }
  }

  /** Where the scan stops above the prefix nothing with the prefix follows. */
  lemma StopsForGood(s: seq<Entry>, req: Request, pos: nat, m: nat)
    requires Pageable(s, req) && Seek(s, req.SeekKey()) <= pos <= m < |s|
    requires !BlockedFrom(s, req, pos) && !Continues(s, req, pos)
    ensures !(InBucket(req.bucket, s[m]) && req.prefix <= s[m].info.key)
  {
    var b, p := BucketPrefix(req.bucket), BucketPrefix(req.bucket) + req.prefix;
    if pos < m && InBucket(req.bucket, s[m]) && req.prefix <= s[m].info.key {
      SeekSplits(s, req.SeekKey());
      LessAsymmetric(s[pos].raw, s[m].raw);
      assert b <= req.SeekKey();
      PrefixIsConvex(b, req.SeekKey(), s[pos].raw, s[m].raw);
      assert InBucket(req.bucket, s[pos]) && !Less(s[pos].info.key, req.prefix);
      BelowPrefix(req.bucket, req.prefix, s[pos].info);
      HasPrefix(req.bucket, req.prefix, s[m].info);
      PrefixIsConvex(p, p, s[pos].raw, s[m].raw);
      HasPrefix(req.bucket, req.prefix, s[pos].info);
    }
  }

  lemma {:induction false} NothingMatches(s: seq<Entry>, req: Request, pos: nat)
    requires forall m :: pos <= m < |s| ==> !(InBucket(req.bucket, s[m]) && req.prefix <= s[m].info.key)
    ensures Matching(s, req, pos) == []
    decreases |s| - pos
  {
    if pos < |s| {
      NothingMatches(s, req, pos + 1);
    }
  }

  lemma {:induction false} UnblockedIsMatching(s: seq<Entry>, req: Request, pos: nat)
    requires Pageable(s, req) && Seek(s, req.SeekKey()) <= pos && !BlockedFrom(s, req, pos)
    ensures Uploads(s, req, pos) == Matching(s, req, pos)
    decreases |s| - pos
  {
    if Continues(s, req, pos) {
      UnblockedIsMatching(s, req, pos + 1);
    } else {
      forall m | pos <= m < |s| ensures !(InBucket(req.bucket, s[m]) && req.prefix <= s[m].info.key) {
        StopsForGood(s, req, pos, m);
      }
      NothingMatches(s, req, pos);
    }
  }

  lemma BlockedShowsNothing(s: seq<Entry>, req: Request, i: nat)
    requires Pageable(s, req) && Seek(s, req.SeekKey()) <= i < |s|
    requires InBucket(req.bucket, s[i]) && Less(s[i].info.key, req.prefix)
    ensures Visible(s, req) == []
  {
    var pos := Seek(s, req.SeekKey());
    if Continues(s, req, pos) {
      assert InBucket(req.bucket, s[pos]);
      BelowPrefix(req.bucket, req.prefix, s[i].info);
      BelowPrefix(req.bucket, req.prefix, s[pos].info);
      PrefixNotAbove(req.prefix, s[pos].info.key);
      if pos < i {
        LessTransitive(s[pos].raw, s[i].raw, BucketPrefix(req.bucket) + req.prefix);
      }
    }
  }

  /** A page shows all uploads behind the markers, if and only if no upload between
      them and the prefix ends the scan, or there is nothing to show. */
  lemma MarkerBelowPrefix(s: seq<Entry>, req: Request)
    requires Pageable(s, req)
    ensures Visible(s, req) == Matching(s, req, Seek(s, req.SeekKey())) <==>
            !BlockedFrom(s, req, Seek(s, req.SeekKey())) || Matching(s, req, Seek(s, req.SeekKey())) == []
  {
    var pos := Seek(s, req.SeekKey());
    if i :| pos <= i < |s| && InBucket(req.bucket, s[i]) && Less(s[i].info.key, req.prefix) {
      BlockedShowsNothing(s, req, i);
    } else {
      UnblockedIsMatching(s, req, pos);
    }
  }

  /** Uploads to "a" and "b", listed with prefix "b" behind the key marker "0". */
  lemma MarkerBelowPrefixHidesAll(bucket: Key, id: Key) returns (s: seq<Entry>, req: Request)
    ensures |s| == 2 && Pageable(s, req) && req.bucket == bucket && req.prefix == [98] && req.keyMarker == [48]
    ensures Visible(s, req) == [] && Matching(s, req, Seek(s, req.SeekKey())) == [s[1].info]
  {
    var a, b, zero: Key := [97], [98], [48];
    var x, y := ObjectInfo(a, id, 1, false, false, [], 0), ObjectInfo(b, id, 2, false, false, [], 0);
    s := [Entry(VersionKey(bucket, a, id), x), Entry(VersionKey(bucket, b, id), y)];
    req := Request(bucket, b, zero, [], 1000);
    assert Less(a, b) && Less(zero, a);
    PairOrder(bucket, a, id, b, id);
    PairOrder(bucket, zero, [], a, id);
    SeekSplits(s, req.SeekKey());
    LessAsymmetric(req.SeekKey(), s[0].raw);
    assert Seek(s, req.SeekKey()) == 0;
    BlockedShowsNothing(s, req, 0);
    assert BucketPrefix(bucket) <= s[1].raw;
    assert Matching(s, req, 2) == [];
    assert Matching(s, req, 1) == [y];
  }

  lemma PairOrder(bucket: Key, a: Key, i: Key, b: Key, j: Key)
    requires |a| == |b| == 1 && a[0] < b[0]
    ensures Less(VersionKey(bucket, a, i), VersionKey(bucket, b, j))
  {
    var p := BucketPrefix(bucket);
    assert VersionKey(bucket, a, i) == p + (a + [0] + i) && VersionKey(bucket, b, j) == p + (b + [0] + j);
    PrefixCancels(p, a + [0] + i, b + [0] + j);
  }
}
