/** What `ListObjects` shows of the buckets that runs of puts and deletes leave. */
module RunListing {
  import opened Keys
  import opened Sequences
  import opened Records
  import opened VersionStack
  import opened Versioning
  import opened ObjectListing
  import opened ObjectPaging

  // ----- what a history should show -----

  /** The key has the prefix, and its current version is no delete marker. */
  predicate IsListed(h: Histories, v: View, key: Key) {
    && 0 !in key && v.prefix <= key
    && StackOf(h, key) != [] && !Top(StackOf(h, key)).isDeleteMarker
  }

  function Shown(h: Histories, v: View, key: Key): Item
    requires IsListed(h, v, key)
  {
    var r := RollUp(v, key);
    if r.0 then CommonPrefix(r.1) else Object(Top(StackOf(h, key)).(isLatest := true))
  }

  /** A key shows as the shortest prefix that ends in a delimiter behind the listing's
      prefix, or else as its current version. */
  ghost predicate ShowsAs(h: Histories, v: View, key: Key, x: Item)
    requires IsListed(h, v, key)
  {
    match x
    case CommonPrefix(d) => GroupsUnder(v, key, d)
    case Object(info) => !Grouped(v, key) && info == Top(StackOf(h, key)).(isLatest := true)
  }

  lemma ShownMeans(h: Histories, v: View, key: Key, x: Item)
    requires IsListed(h, v, key)
    ensures Shown(h, v, key) == x <==> ShowsAs(h, v, key, x)
  {
    RollUpMeans(v, key);
  }

  ghost predicate ShownByHistory(h: Histories, v: View, x: Item) {
    exists key :: IsListed(h, v, key) && ShowsAs(h, v, key, x)
  }

  /** No listed key has the byte 0xFF right behind its common prefix. */
  ghost predicate Passable(h: Histories, v: View) {
    forall key :: IsListed(h, v, key) ==> PassesOver(v, key)
  }

  ghost predicate PassesOver(v: View, key: Key) {
    forall d :: GroupsUnder(v, key, d) ==> !(d + [255] <= key)
  }

  /** A listed object whose key ends in the delimiter has a listed extension. */
  ghost predicate FolderObject(h: Histories, v: View) {
    v.delimiter != [] && exists a, b :: IsFolderOf(h, v, a, b)
  }

  ghost predicate IsFolderOf(h: Histories, v: View, a: Key, b: Key) {
    && IsListed(h, v, a) && IsListed(h, v, b)
    && !Grouped(v, a) && EndsWith(a, v.delimiter) && InShadow(a, b)
  }

  // ----- the records show it -----

  /** A live latest pointer stands for a listed key ... */
  lemma LiveIsListed(s: seq<Entry>, v: View, h: Histories, i: nat)
    requires Refines(s, v.bucket, h) && i < |s| && IsLive(v, s[i])
    ensures var key := ObjectKey(v.bucket, s[i].raw);
            IsListed(h, v, key) && ItemOf(v, s[i]) == Shown(h, v, key)
  {
    var key := ObjectKey(v.bucket, s[i].raw);
    assert s[i].raw == PointerKey(v.bucket, key);
    GetMeans(s, s[i].raw);
    assert Represents(s, v.bucket, key, StackOf(h, key));
  }

  /** ... and every listed key has one. */
  lemma ListedIsLive(s: seq<Entry>, v: View, h: Histories, key: Key) returns (i: nat)
    requires Refines(s, v.bucket, h) && IsListed(h, v, key)
    ensures i < |s| && IsLive(v, s[i]) && ObjectKey(v.bucket, s[i].raw) == key
  {
    var raw := PointerKey(v.bucket, key);
    assert Represents(s, v.bucket, key, StackOf(h, key));
    GetMeans(s, raw);
    i :| 0 <= i < |s| && s[i] == Entry(raw, Get(s, raw).value);
  }

  /** Without StartAfter, everything that the history lists is behind the start. */
  lemma VisibleIsShown(s: seq<Entry>, req: Request, h: Histories, x: Item)
    requires Refines(s, req.view.bucket, h) && req.After() == []
    ensures x in Visible(s, req) <==> ShownByHistory(h, req.view, x)
  {
    var v := req.view;
    UnblockedStart(s, req);
    ListingExact(s, v, Start(s, req));
    assert x in Visible(s, req) <==> Shows(s, v, Start(s, req), x);
    if x in Visible(s, req) {
      var i :| Start(s, req) <= i < |s| && IsLive(v, s[i]) && ItemOf(v, s[i]) == x;
      LiveIsListed(s, v, h, i);
      ShownMeans(h, v, ObjectKey(v.bucket, s[i].raw), x);
    }
    if ShownByHistory(h, v, x) {
      var key :| IsListed(h, v, key) && ShowsAs(h, v, key, x);
      ShownMeans(h, v, key, x);
      var i := ListedIsLive(s, v, h, key);
      LiveIsListed(s, v, h, i);
      StartMeans(s, req, i);
      PrefixNotAbove(v.prefix, key);
    }
  }

  lemma PassableIsSkippable(s: seq<Entry>, v: View, h: Histories)
    requires Refines(s, v.bucket, h) && Passable(h, v)
    ensures Skippable(s, v, 0)
  {
    forall i {:trigger IsLive(v, s[i])} | 0 <= i < |s| && IsLive(v, s[i])
      ensures var key := ObjectKey(v.bucket, s[i].raw);
              RollUp(v, key).0 && |key| > |RollUp(v, key).1| ==> key[|RollUp(v, key).1|] != 255
    {
      LiveIsListed(s, v, h, i);
      PassesBehind(v, ObjectKey(v.bucket, s[i].raw));
    }
  }

  lemma PassesBehind(v: View, key: Key)
    requires v.prefix <= key && PassesOver(v, key)
    ensures RollUp(v, key).0 && |key| > |RollUp(v, key).1| ==> key[|RollUp(v, key).1|] != 255
  {
    RollUpMeans(v, key);
    var r := RollUp(v, key);
    if r.0 && |key| > |r.1| {
      assert GroupsUnder(v, key, r.1);
      ByteBehind(r.1, key);
    }
  }

  lemma ByteBehind(d: Key, key: Key)
    requires d <= key && |d| < |key|
    ensures d + [255] <= key <==> key[|d|] == 255
  {
    assert key[..|d| + 1] == d + [key[|d|]];
  }

  /** A shown object that casts a shadow is a folder object of the history. */
  lemma ShadowsAreFolders(s: seq<Entry>, req: Request, h: Histories)
    requires Refines(s, req.view.bucket, h) && req.After() == []
    ensures NoShadows(s, req) <==> !FolderObject(h, req.view)
  {
    if x :| x in Visible(s, req) && Shadows(s, req.view, x) {
      FolderOfShadow(s, req, h, x);
    }
    if a, b :| IsFolderOf(h, req.view, a, b) && FolderObject(h, req.view) {
      ShadowOfFolder(s, req, h, a, b);
    }
  }

  lemma FolderOfShadow(s: seq<Entry>, req: Request, h: Histories, x: Item)
    requires Refines(s, req.view.bucket, h) && req.After() == []
    requires x in Visible(s, req) && Shadows(s, req.view, x)
    ensures FolderObject(h, req.view)
  {
    var v := req.view;
    VisibleIsShown(s, req, h, x);
    var a :| IsListed(h, v, a) && ShowsAs(h, v, a, x);
    var m :| 0 <= m < |s| && IsLive(v, s[m]) && InShadow(x.Name(), ObjectKey(v.bucket, s[m].raw));
    LiveIsListed(s, v, h, m);
    KeyOfTop(s, v, h, a);
    assert IsFolderOf(h, v, a, ObjectKey(v.bucket, s[m].raw));
  }

  lemma ShadowOfFolder(s: seq<Entry>, req: Request, h: Histories, a: Key, b: Key)
    requires Refines(s, req.view.bucket, h) && req.After() == []
    requires req.view.delimiter != [] && IsFolderOf(h, req.view, a, b)
    ensures !NoShadows(s, req)
  {
    VisibleIsShown(s, req, h, Shown(h, req.view, a));
    ShownMeans(h, req.view, a, Shown(h, req.view, a));
    KeyOfTop(s, req.view, h, a);
    var m := ListedIsLive(s, req.view, h, b);
    assert Shadows(s, req.view, Shown(h, req.view, a));
  }

  lemma KeyOfTop(s: seq<Entry>, v: View, h: Histories, key: Key)
    requires Refines(s, v.bucket, h) && IsListed(h, v, key)
    ensures Top(StackOf(h, key)).key == key
  {
    assert Represents(s, v.bucket, key, StackOf(h, key));
  }

  /** The first page of a listing of such a bucket, and what the chain adds up to. */
  ghost predicate ListsHistory(s: seq<Entry>, req: Request, h: Histories) {
    && Listable(s, req) && Ascending(Visible(s, req))
    && (forall x :: x in Visible(s, req) <==> ShownByHistory(h, req.view, x))
    && ((forall m :: Chain(s, WithLimit(req, m)) == Visible(s, req)) <==> !FolderObject(h, req.view))
  }

  lemma RecordsListHistory(s: seq<Entry>, req: Request, h: Histories)
    requires Refines(s, req.view.bucket, h) && Sound(s, req.view)
    requires req.After() == [] && Passable(h, req.view)
    ensures ListsHistory(s, req, h)
  {
    PassableIsSkippable(s, req.view, h);
    ListingAscends(s, req.view, Start(s, req));
    forall x ensures x in Visible(s, req) <==> ShownByHistory(h, req.view, x) {
      VisibleIsShown(s, req, h, x);
    }
    UnblockedStart(s, req);
    ChainCompleteForAllPageSizes(s, req);
    ShadowsAreFolders(s, req, h);
  }

  /** After any run of puts and deletes under a strictly increasing clock, every page
      of `ListObjects` ends, and following the tokens from the first page on shows
      each key whose current version is no delete marker, or its common prefix, once
      and in ascending order and nothing else, whatever MaxKeys is; but for this last
      point if and only if no listed object is a folder object. */
  lemma RunsListTheirObjects(ops: seq<Op>, now: int, req: Request)
    requires Clocked(ops, now) && req.After() == []
    requires Passable(RunAfter(map[], ops), req.view)
    ensures ListsHistory(Run([], req.view.bucket, ops), req, RunAfter(map[], ops))
    ensures Ends(Run([], req.view.bucket, ops), req)
  {
    var s, h := AfterRun(ops, now, req.view);
    RecordsListHistory(s, req, h);
    PagesEnd(s, req);
  }

  // ----- a run that leaves a folder object -----

  const FOLDER: Key := [97, 47]
  const INSIDE: Key := [97, 47, 120]

  function Written(key: Key, id: Key, now: int): Op {
    PutOp(ObjectInfo(key, id, now, false, false, [], 0))
  }

  /** With versioning enabled: put "a/x", then "a/". (Without, the second put would
      be refused, because the file of one object is the directory of the other.) */
  function FolderRun(id: Key, otherId: Key): seq<Op> {
    [Written(INSIDE, id, 1), Written(FOLDER, otherId, 2)]
  }

  function FolderView(bucket: Key): View {
    View(bucket, FOLDER, [47])
  }

  lemma FolderHistory(id: Key, otherId: Key)
    ensures Clocked(FolderRun(id, otherId), 0)
    ensures RunAfter(map[], FolderRun(id, otherId))
            == map[INSIDE := [Written(INSIDE, id, 1).info], FOLDER := [Written(FOLDER, otherId, 2).info]]
  {
    var ops := FolderRun(id, otherId);
    assert ops[1..] == [Written(FOLDER, otherId, 2)] && ops[1..][1..] == [];
    assert Clocked(ops[1..], 1);
    PushOnEmpty(Written(INSIDE, id, 1).info);
    PushOnEmpty(Written(FOLDER, otherId, 2).info);
    var h := After(map[], ops[0]);
    assert StackOf(h, FOLDER) == [];
    assert RunAfter(h, ops[1..]) == After(h, ops[1]);
  }

  lemma PushOnEmpty(info: ObjectInfo)
    ensures Push([], info) == [Plain(info)]
  {
  }

  lemma FolderViewGroups(bucket: Key)
    ensures !RollUp(FolderView(bucket), FOLDER).0 && !RollUp(FolderView(bucket), INSIDE).0
    ensures EndsWith(FOLDER, [47]) && InShadow(FOLDER, INSIDE) && Less(FOLDER, INSIDE)
  {
    var rest: Key := [120];
    assert FOLDER[|FOLDER|..] == [] && INSIDE[|FOLDER|..] == rest;
    IndexFromIsFirst(rest, [47], 0);
    assert rest[0..1] == rest;
    PrefixNotAbove(FOLDER, INSIDE);
  }

  /** The run's bucket, listed with prefix "a/" and delimiter "/" and one item a page,
      holds two objects of which the chain misses one. */
  lemma FolderObjectHidesItsContents(bucket: Key, id: Key, otherId: Key) returns (s: seq<Entry>, req: Request)
    requires id != [] && otherId != []
    ensures s == Run([], bucket, FolderRun(id, otherId)) && req == Request(FolderView(bucket), 1, [], [])
    ensures Listable(s, req) && |Visible(s, req)| == 2 && Chain(s, req) != Visible(s, req)
  {
    req := Request(FolderView(bucket), 1, [], []);
    FolderHistory(id, otherId);
    var h;
    s, h := AfterRun(FolderRun(id, otherId), 0, req.view);
    FolderIsListed(bucket, h);
    RecordsListHistory(s, req, h);
    TwoItems(s, req, h, FOLDER, INSIDE);
    ChainMissesSome(s, req, h);
  }

  /** The bucket that a run leaves, and its history. */
  lemma AfterRun(ops: seq<Op>, now: int, v: View) returns (s: seq<Entry>, h: Histories)
    requires Clocked(ops, now)
    ensures s == Run([], v.bucket, ops) && h == RunAfter(map[], ops)
    ensures Refines(s, v.bucket, h) && Sound(s, v)
  {
    s, h := Run([], v.bucket, ops), RunAfter(map[], ops);
    RunIsSound(ops, now, v);
    ClockedIsAllowed(map[], ops, now);
    RunRefines([], v.bucket, map[], ops);
  }

  lemma RunIsSound(ops: seq<Op>, now: int, v: View)
    requires Clocked(ops, now)
    ensures Sound(Run([], v.bucket, ops), v)
  {
    RunIsListable(v.bucket, ops, now);
  }

  lemma FolderIsListed(bucket: Key, h: Histories)
    requires h.Keys == {FOLDER, INSIDE}
    requires forall key :: key in h ==> |h[key]| == 1 && h[key][0].key == key && !h[key][0].isDeleteMarker
    ensures var v := FolderView(bucket);
            && Passable(h, v) && FolderObject(h, v) && IsListed(h, v, FOLDER) && IsListed(h, v, INSIDE)
            && Shown(h, v, FOLDER) != Shown(h, v, INSIDE)
  {
    FolderViewGroups(bucket);
    RollUpMeans(FolderView(bucket), FOLDER);
    RollUpMeans(FolderView(bucket), INSIDE);
    assert IsFolderOf(h, FolderView(bucket), FOLDER, INSIDE);
  }

  lemma ChainMissesSome(s: seq<Entry>, req: Request, h: Histories)
    requires Refines(s, req.view.bucket, h) && ListsHistory(s, req, h) && FolderObject(h, req.view)
    requires req.maxKeys == 1 && req.After() == []
    ensures Chain(s, req) != Visible(s, req)
  {
    ShadowsAreFolders(s, req, h);
    UnblockedStart(s, req);
    assert WithLimit(req, 1) == req;
    if Chain(s, req) == Visible(s, req) {
      ShadowsBreakSingleItemPages(s, req);
    }
  }

  lemma TwoItems(s: seq<Entry>, req: Request, h: Histories, a: Key, b: Key)
    requires ListsHistory(s, req, h) && h.Keys == {a, b}
    requires IsListed(h, req.view, a) && IsListed(h, req.view, b) && Shown(h, req.view, a) != Shown(h, req.view, b)
    ensures |Visible(s, req)| == 2
  {
    var all, x, y := Visible(s, req), Shown(h, req.view, a), Shown(h, req.view, b);
    forall z ensures z in all <==> z == x || z == y {
      assert z in all <==> ShownByHistory(h, req.view, z);
      ShownMeans(h, req.view, a, z);
      ShownMeans(h, req.view, b, z);
    }
    SizeOfTwo(all, x, y);
  }

  lemma SizeOfTwo(all: seq<Item>, x: Item, y: Item)
    requires Ascending(all) && x != y && forall z :: z in all <==> z == x || z == y
    ensures |all| == 2
  {
    AscendingSize(all);
    assert (set z | z in all) == {x, y};
  }

  /** An unversioned bucket with the one object "a/x", listed with delimiter "/" and
      StartAfter "a/": the object's key is greater, and the listing is empty. */
  lemma StartAfterHidesFolder(bucket: Key, prefix: Key) returns (s: seq<Entry>, req: Request)
    requires prefix <= FOLDER
    ensures s == Run([], bucket, [Written(INSIDE, [], 1)])
            && req == Request(View(bucket, prefix, [47]), 1000, [], FOLDER)
    ensures IsListed(RunAfter(map[], [Written(INSIDE, [], 1)]), req.view, INSIDE) && Less(req.After(), INSIDE)
    ensures Visible(s, req) == []
  {
    var ops := [Written(INSIDE, [], 1)];
    req := Request(View(bucket, prefix, [47]), 1000, [], FOLDER);
    InsideHistory();
    FolderViewGroups(bucket);
    var h;
    s, h := AfterRun(ops, 0, req.view);
    NothingBehindStart(s, req, h);
  }

  lemma InsideHistory()
    ensures Clocked([Written(INSIDE, [], 1)], 0)
    ensures RunAfter(map[], [Written(INSIDE, [], 1)]) == map[INSIDE := [Written(INSIDE, [], 1).info]]
  {
    var ops := [Written(INSIDE, [], 1)];
    assert ops[1..] == [];
    PushOnEmpty(ops[0].info);
    assert RunAfter(After(map[], ops[0]), []) == After(map[], ops[0]);
  }

  lemma NothingBehindStart(s: seq<Entry>, req: Request, h: Histories)
    requires Refines(s, req.view.bucket, h) && h.Keys == {INSIDE}
    requires req.After() == FOLDER && req.view.delimiter == [47]
    ensures Visible(s, req) == []
  {
    var v := req.view;
    FolderViewGroups(v.bucket);
    forall i | Start(s, req) <= i < |s| ensures !IsLive(v, s[i]) {
      if IsLive(v, s[i]) {
        LiveIsListed(s, v, h, i);
        NotBehindStart(s, req, i);
      }
    }
    ListingEmpty(s, v, Start(s, req), |s|);
  }
}
