/**
 The forum of ForumView.swift: pages of posts and blocks of ads arrive in
 callbacks, and every ad goes to a row computed from two counters.
 */
module Feed {
  import opened Wire

  /** A row of `tempData`; a post carries the cursor that continues behind it. */
  datatype Entry = Post(lastDocument: int) | Ad(adData: int)

  /** The fields of the view. */
  datatype Feed = Feed(tempData: seq<Entry>, nativeAds: seq<int>, numAdsToLoad: nat, index: nat, secondIndex: nat,
                       adFlag: bool, isLoading: bool)

  function Posts(ps: seq<int>): (rows: seq<Entry>)
    ensures |rows| == |ps| && forall r :: 0 <= r < |ps| ==> rows[r] == Post(ps[r])
  {
    seq(|ps|, i requires 0 <= i < |ps| => Post(ps[i]))
  }

  // -------------------------------------------------- what the callbacks do

  /** `Array.insert(_:at:)` of an ad */
  function InsertAt(rows: seq<Entry>, p: nat, ad: int): seq<Entry>
    requires p <= |rows|
  {
    rows[..p] + [Ad(ad)] + rows[p..]
  }

  /** One round of the loop of `addNativeAds` */
  function WithOneAd(f: Feed, ad: int): Feed
    requires f.index + f.secondIndex <= |f.tempData|
  {
    f.(tempData := InsertAt(f.tempData, f.index + f.secondIndex, ad), index := f.index + 5,
      secondIndex := f.secondIndex + 1)
  }

  /** The loop of `addNativeAds`; None when an ad is to go behind the end, where `insert` traps. */
  function InsertAds(f: Feed, ads: seq<int>): Option<Feed>
    decreases |ads|
  {
    if ads == [] then Some(f)
    else if f.index + f.secondIndex > |f.tempData| then None
    else
      InsertAds(WithOneAd(f, ads[0]), ads[1..])
  }

  /** `addNativeAds` */
  function WithNativeAds(f: Feed): Option<Feed> {
    if f.nativeAds == [] then Some(f)
    else
      match InsertAds(f, f.nativeAds)
      case None => None
      case Some(g) => Some(g.(adFlag := true))
  }

  /** `adLoader(_:didReceive:)` */
  function Received(f: Feed, ad: int): Option<Feed> {
    if f.adFlag then Some(f)
    else
      var g := if |f.nativeAds| != f.numAdsToLoad then f.(nativeAds := f.nativeAds + [ad]) else f;
      if |g.nativeAds| == g.numAdsToLoad && g.numAdsToLoad > 0 then WithNativeAds(g) else Some(g)
  }

  /** The row that `loadMoreData` continues behind. */
  function CursorRow(f: Feed): int {
    var n := |f.tempData|;
    if n < 5 then n - 1 else if f.tempData[n - 1].Ad? then n - 2 else n - 1
  }

  /** The blocks that run on the main thread, in the order in which a request causes them. */
  datatype Event =
    | Refresh                  // `refreshData`
    | FirstPage(ps: seq<int>)  // the posts that `sortData` asked for
    | FirstAds                 // the ads for them are asked for
    | More                     // `loadMoreData`, up to its sleep
    | Cursor                   // its block behind the sleep
    | Page(ps: seq<int>)       // the posts that this block asked for
    | PageAds(n: nat)          // the ads for them are asked for
    | Receive(ad: int)         // an ad arrives
    | FailAd                   // an ad does not

  /** One block; None when it traps. */
  function Step(f: Feed, e: Event): Option<Feed> {
    match e
    case Refresh => Some(Feed([], [], 0, 5, 0, false, false))
    case FirstPage(ps) =>
      if ps != [] then Some(f.(tempData := Posts(ps)))
      else Some(f.(tempData := [], nativeAds := [], numAdsToLoad := 0))
    case FirstAds => Some(f.(numAdsToLoad := |f.tempData| / 5))
    case More => if f.isLoading then Some(f) else Some(f.(isLoading := true, adFlag := false, nativeAds := []))
    case Cursor =>
      if |f.tempData| <= 5 then Some(f.(isLoading := false))
      else if f.tempData[CursorRow(f)].Ad? then None
      else Some(f)
    case Page(ps) => Some(f.(tempData := f.tempData + Posts(ps)))
    case PageAds(n) => Some(f.(numAdsToLoad := n / 5, isLoading := false))
    case Receive(ad) => Received(f, ad)
    case FailAd => Some(f.(adFlag := true))
  }

  function Run(f: Feed, es: seq<Event>): Option<Feed>
    decreases |es|
  {
    if es == [] then Some(f)
    else
      match Step(f, es[0])
      case None => None
      case Some(g) => Run(g, es[1..])
  }

  // ------------------------------------------------------ the environment

  /** How far the first page after a refresh has come, and how far a later one. */
  datatype First = Waiting | AdsDue | Shown
  datatype Load = Calm | CursorDue | PageDue | PageAdsDue(size: nat)

  /** What the outside still owes: blocks in their order, and at most `remaining` ads from the
      latest loader. `posts` are the posts delivered since the refresh, page after page. */
  datatype Env = Env(first: First, load: Load, remaining: nat, posts: seq<int>)

  /** The blocks of a request come one after the other, only the latest loader delivers, and a
      further page comes only after the ads of the first one have been asked for. */
  predicate Allowed(v: Env, e: Event) {
    match e
    case Refresh => true
    case FirstPage(ps) => v.first == Waiting
    case FirstAds => v.first == AdsDue
    case More => true
    case Cursor => v.load == CursorDue
    case Page(ps) => v.load == PageDue && v.first == Shown
    case PageAds(n) => v.load == PageAdsDue(n)
    case Receive(ad) => v.remaining > 0
    case FailAd => true
  }

  function Next(v: Env, e: Event, rows: nat): Env {
    match e
    case Refresh => Env(Waiting, Calm, v.remaining, [])
    case FirstPage(ps) => v.(first := if ps == [] then Shown else AdsDue, posts := ps)
    case FirstAds => v.(first := Shown, remaining := rows / 5)
    case More => if v.load == Calm then v.(load := CursorDue) else v
    case Cursor => v.(load := if rows <= 5 then Calm else PageDue)
    case Page(ps) => v.(load := PageAdsDue(|ps|), posts := v.posts + ps)
    case PageAds(n) => v.(load := Calm, remaining := n / 5)
    case Receive(ad) => if v.remaining > 0 then v.(remaining := v.remaining - 1) else v
    case FailAd => v
  }

  /** Every event of a run is allowed when it comes. */
  predicate Orderly(f: Feed, v: Env, es: seq<Event>)
    decreases |es|
  {
    es == [] ||
    (Allowed(v, es[0]) &&
     (var g := Step(f, es[0]); g.Some? ==> Orderly(g.value, Next(v, es[0], |f.tempData|), es[1..])))
  }

  function After(f: Feed, v: Env, es: seq<Event>): Env
    decreases |es|
  {
    if es == [] then v
    else
      match Step(f, es[0])
      case None => v
      case Some(g) => After(g, Next(v, es[0], |f.tempData|), es[1..])
  }

  // ---------------------------------------------------------- the layout

  /** The posts among rows. */
  function WithoutAds(rows: seq<Entry>): seq<int> {
    if rows == [] then []
    else
      var n := |rows| - 1;
      WithoutAds(rows[..n]) + if rows[n].Post? then [rows[n].lastDocument] else []
  }

  /** The first k ads, and no others, are at the rows 5, 11, 17 and so on. */
  predicate AdsAt(rows: seq<Entry>, k: nat) {
    forall r :: 0 <= r < |rows| ==> (rows[r].Ad? <==> r % 6 == 5 && r / 6 < k)
  }

  /** What is on the screen: the posts in order, and k ads at their rows. */
  predicate LaidOut(f: Feed, posts: seq<int>) {
    var k := f.secondIndex;
    && f.index == 5 + 5 * k && |f.tempData| == |posts| + k
    && WithoutAds(f.tempData) == posts && AdsAt(f.tempData, k) && 5 * k <= |posts|
  }

  /** Posts for which no ads have been asked for yet. */
  function Due(v: Env): nat {
    if v.first == AdsDue then |v.posts| else if v.load.PageAdsDue? then v.load.size else 0
  }

  /** Another round of ads fits behind those that are placed, or cannot come any more. */
  predicate Safe(f: Feed, v: Env) {
    || 5 * (f.secondIndex + f.numAdsToLoad) + Due(v) <= |v.posts|
    || (v.remaining < f.numAdsToLoad && (f.adFlag || |f.nativeAds| + v.remaining < f.numAdsToLoad))
  }

  predicate Good(f: Feed, v: Env) {
    && LaidOut(f, v.posts) && Safe(f, v)
    && 5 * f.secondIndex + Due(v) <= |v.posts|
    && (f.numAdsToLoad > 0 ==> v.remaining <= f.numAdsToLoad)
    && (f.isLoading <==> v.load != Calm)
    && (v.first == Waiting ==> v.posts == [] && f.numAdsToLoad == 0 && (v.load == Calm || v.load == CursorDue))
    && (v.first == AdsDue ==> f.numAdsToLoad == 0 && !v.load.PageAdsDue?)
  }

  // ------------------------------------------------------------ one block

  lemma {:induction false} WithoutAdsConcat(a: seq<Entry>, b: seq<Entry>)
    ensures WithoutAds(a + b) == WithoutAds(a) + WithoutAds(b)
    decreases |b|
  {
    if b == [] {
      assert a + b == a;
    } else {
      var n := |b| - 1;
      WithoutAdsConcat(a, b[..n]);
      assert (a + b)[..|a| + n] == a + b[..n];
    }
  }

  lemma {:induction false} WithoutAdsPosts(ps: seq<int>)
    ensures WithoutAds(Posts(ps)) == ps
  {
    if ps != [] {
      var n := |ps| - 1;
      WithoutAdsPosts(ps[..n]);
      assert Posts(ps)[..n] == Posts(ps[..n]);
      assert ps == ps[..n] + [ps[n]];
    }
  }

  lemma AdAlone(ad: int)
    ensures WithoutAds([Ad(ad)]) == []
  {
    assert [Ad(ad)][..0] == [];
  }

  lemma ThreeParts(a: seq<Entry>, x: seq<Entry>, b: seq<Entry>)
    ensures WithoutAds(a + x + b) == WithoutAds(a) + WithoutAds(x) + WithoutAds(b)
  {
    WithoutAdsConcat(a + x, b);
    WithoutAdsConcat(a, x);
  }

  lemma AdBetween(a: seq<Entry>, ad: int, b: seq<Entry>)
    ensures WithoutAds(a + [Ad(ad)] + b) == WithoutAds(a + b)
  {
    AdAlone(ad);
    ThreeParts(a, [Ad(ad)], b);
    WithoutAdsConcat(a, b);
    Nothing(WithoutAds(a));
  }

  lemma Nothing(u: seq<int>)
    ensures u + [] == u
  {
  }

  lemma WithoutAdsInsert(rows: seq<Entry>, p: nat, ad: int)
    requires p <= |rows|
    ensures WithoutAds(InsertAt(rows, p, ad)) == WithoutAds(rows)
  {
    AdBetween(rows[..p], ad, rows[p..]);
    Rejoined(rows, p);
  }

  lemma Rejoined(rows: seq<Entry>, p: nat)
    requires p <= |rows|
    ensures rows[..p] + rows[p..] == rows
  {
  }

  lemma InsertedAd(rows: seq<Entry>, k: nat, ad: int)
    requires AdsAt(rows, k) && 6 * k + 5 <= |rows|
    ensures AdsAt(InsertAt(rows, 6 * k + 5, ad), k + 1)
  {
    var p := 6 * k + 5;
    var more := InsertAt(rows, p, ad);
    assert p % 6 == 5 && p / 6 == k;
    forall r | 0 <= r < |more|
      ensures more[r].Ad? <==> r % 6 == 5 && r / 6 < k + 1
    {
      if r < p {
        assert more[r] == rows[r];
      } else if r > p {
        assert more[r] == rows[r - 1];
        assert !rows[r - 1].Ad?;
      }
    }
  }

  /** Ads that fit go to their rows; with one that does not, `insert` traps. */
  lemma {:induction false} InsertAdsExact(f: Feed, posts: seq<int>, ads: seq<int>)
    requires LaidOut(f, posts)
    ensures InsertAds(f, ads).Some? <==> ads == [] || 5 * (f.secondIndex + |ads|) <= |posts|
    ensures InsertAds(f, ads).Some? ==>
              var g := InsertAds(f, ads).value;
              LaidOut(g, posts) && g.secondIndex == f.secondIndex + |ads|
              && g == f.(tempData := g.tempData, index := g.index, secondIndex := g.secondIndex)
    decreases |ads|
  {
    if ads != [] && 5 * (f.secondIndex + 1) <= |posts| {
      InsertOne(f, posts, ads[0]);
      InsertAdsExact(WithOneAd(f, ads[0]), posts, ads[1..]);
    }
  }

  lemma InsertOne(f: Feed, posts: seq<int>, ad: int)
    requires LaidOut(f, posts) && 5 * (f.secondIndex + 1) <= |posts|
    ensures f.index + f.secondIndex <= |f.tempData| && LaidOut(WithOneAd(f, ad), posts)
  {
    InsertedAd(f.tempData, f.secondIndex, ad);
    WithoutAdsInsert(f.tempData, f.index + f.secondIndex, ad);
  }

  /** An ad that arrives traps exactly when it completes a round that does not fit behind the
      ads already placed. */
  lemma ReceivedExact(f: Feed, posts: seq<int>, ad: int)
    requires LaidOut(f, posts)
    ensures var last := !f.adFlag && f.numAdsToLoad > 0
            && (|f.nativeAds| == f.numAdsToLoad || |f.nativeAds| + 1 == f.numAdsToLoad);
            && (Received(f, ad).None? <==> last && 5 * (f.secondIndex + f.numAdsToLoad) > |posts|)
            && (Received(f, ad).Some? ==>
                  var g := Received(f, ad).value;
                  && LaidOut(g, posts) && g.numAdsToLoad == f.numAdsToLoad && g.isLoading == f.isLoading
                  && g.secondIndex == f.secondIndex + (if last then f.numAdsToLoad else 0)
                  && g.adFlag == (f.adFlag || last)
                  && |g.nativeAds| <= |f.nativeAds| + if f.adFlag then 0 else 1)
  {
    if !f.adFlag {
      var g := if |f.nativeAds| != f.numAdsToLoad then f.(nativeAds := f.nativeAds + [ad]) else f;
      InsertAdsExact(g, posts, g.nativeAds);
    }
  }

  lemma AppendedPage(rows: seq<Entry>, k: nat, ps: seq<int>)
    requires AdsAt(rows, k) && 6 * k <= |rows|
    ensures AdsAt(rows + Posts(ps), k) && WithoutAds(rows + Posts(ps)) == WithoutAds(rows) + ps
  {
    WithoutAdsConcat(rows, Posts(ps));
    WithoutAdsPosts(ps);
    var more := rows + Posts(ps);
    forall r | 0 <= r < |more|
      ensures more[r].Ad? <==> r % 6 == 5 && r / 6 < k
    {
      if r < |rows| {
        assert more[r] == rows[r];
      } else {
        assert more[r] == Post(ps[r - |rows|]);
        assert r >= 6 * k;
      }
    }
  }

  /** The cursor is the last post, whether or not an ad is behind it. */
  lemma CursorIsLastPost(f: Feed, posts: seq<int>)
    requires LaidOut(f, posts) && |f.tempData| > 5
    ensures posts != [] && 0 <= CursorRow(f) < |f.tempData|
    ensures f.tempData[CursorRow(f)] == Post(posts[|posts| - 1])
  {
    var rows, n := f.tempData, |f.tempData|;
    if rows[n - 1].Ad? {
      assert !rows[n - 2].Ad?;
      LastPost(rows[..n - 1]);
    } else {
      LastPost(rows);
    }
  }

  lemma LastPost(rows: seq<Entry>)
    requires rows != [] && rows[|rows| - 1].Post?
    ensures var posts := WithoutAds(rows); posts != [] && Post(posts[|posts| - 1]) == rows[|rows| - 1]
  {
  }

  // ------------------------------------------------------------- all runs

  lemma ReceiveKeeps(f: Feed, v: Env, ad: int)
    requires Good(f, v) && v.remaining > 0
    ensures Received(f, ad).Some? && Good(Received(f, ad).value, Next(v, Receive(ad), |f.tempData|))
  {
    ReceivedExact(f, v.posts, ad);
  }

  lemma PageKeeps(f: Feed, v: Env, ps: seq<int>)
    requires Good(f, v) && v.load == PageDue && v.first == Shown
    ensures Good(f.(tempData := f.tempData + Posts(ps)), Next(v, Page(ps), |f.tempData|))
  {
    AppendedPage(f.tempData, f.secondIndex, ps);
  }

  lemma FirstPageKeeps(f: Feed, v: Env, ps: seq<int>)
    requires Good(f, v) && v.first == Waiting
    ensures Step(f, FirstPage(ps)).Some? && Good(Step(f, FirstPage(ps)).value, Next(v, FirstPage(ps), |f.tempData|))
  {
    WithoutAdsPosts(ps);
    assert WithoutAds([]) == [];
  }

  /** The blocks that only touch counters and flags. */
  lemma CountersKeep(f: Feed, v: Env, e: Event)
    requires Good(f, v) && Allowed(v, e) && (e.FirstAds? || e.More? || e.PageAds? || e.FailAd?)
    ensures Step(f, e).Some? && Good(Step(f, e).value, Next(v, e, |f.tempData|))
  {
  }

  lemma CursorKeeps(f: Feed, v: Env)
    requires Good(f, v) && v.load == CursorDue
    ensures Step(f, Cursor).Some? && Good(Step(f, Cursor).value, Next(v, Cursor, |f.tempData|))
  {
    if |f.tempData| > 5 {
      CursorIsLastPost(f, v.posts);
    }
  }

  lemma RefreshStarts(f: Feed, v: Env)
    ensures Step(f, Refresh).Some? && Good(Step(f, Refresh).value, Next(v, Refresh, |f.tempData|))
  {
  }

  /** An allowed block does not trap and leaves the rows laid out. */
  lemma StepKeeps(f: Feed, v: Env, e: Event)
    requires Good(f, v) && Allowed(v, e)
    ensures Step(f, e).Some? && Good(Step(f, e).value, Next(v, e, |f.tempData|))
  {
    match e
    case Refresh => RefreshStarts(f, v);
    case FirstPage(ps) => FirstPageKeeps(f, v, ps);
    case Cursor => CursorKeeps(f, v);
    case Page(ps) => PageKeeps(f, v, ps);
    case Receive(ad) => ReceiveKeeps(f, v, ad);
    case _ => CountersKeep(f, v, e);
  }

  /** In any orderly run nothing traps, and afterwards the posts are there in order with the
      ads at the rows 5, 11, 17 and so on. */
  lemma {:induction false} RunsKeep(f: Feed, v: Env, es: seq<Event>)
    requires Good(f, v) && Orderly(f, v, es)
    ensures Run(f, es).Some? && Good(Run(f, es).value, After(f, v, es))
    decreases |es|
  {
    if es != [] {
      StepKeeps(f, v, es[0]);
      RunsKeep(Step(f, es[0]).value, Next(v, es[0], |f.tempData|), es[1..]);
    }
  }

  /** Whatever was on the screen before, a refresh starts such a run. */
  lemma FromRefresh(f: Feed, v: Env, es: seq<Event>)
    requires es != [] && es[0] == Refresh && Orderly(f, v, es)
    ensures Run(f, es).Some? && LaidOut(Run(f, es).value, After(f, v, es).posts)
  {
    RefreshStarts(f, v);
    RunsKeep(Step(f, Refresh).value, Next(v, Refresh, |f.tempData|), es[1..]);
  }

  // ------------------------------------------------- which ads are shown

  /** The ads among rows, from top to bottom. */
  function AdsIn(rows: seq<Entry>): seq<int> {
    if rows == [] then []
    else
      var n := |rows| - 1;
      AdsIn(rows[..n]) + if rows[n].Ad? then [rows[n].adData] else []
  }

  lemma {:induction false} AdsInConcat(a: seq<Entry>, b: seq<Entry>)
    ensures AdsIn(a + b) == AdsIn(a) + AdsIn(b)
    decreases |b|
  {
    if b == [] {
      assert a + b == a;
    } else {
      var n := |b| - 1;
      AdsInConcat(a, b[..n]);
      assert (a + b)[..|a| + n] == a + b[..n];
    }
  }

  lemma {:induction false} NoAdsIn(rows: seq<Entry>)
    requires forall r :: 0 <= r < |rows| ==> rows[r].Post?
    ensures AdsIn(rows) == []
  {
    if rows != [] {
      NoAdsIn(rows[..|rows| - 1]);
    }
  }

  lemma AdsInThree(a: seq<Entry>, ad: int, b: seq<Entry>)
    ensures AdsIn(a + [Ad(ad)] + b) == AdsIn(a) + [ad] + AdsIn(b)
  {
    AdsInConcat(a + [Ad(ad)], b);
    AdsInConcat(a, [Ad(ad)]);
    assert [Ad(ad)][..0] == [];
  }

  /** An ad goes behind all that are there. */
  lemma AdsInInsert(rows: seq<Entry>, k: nat, ad: int)
    requires NoAdsBehind(rows, k) && 6 * k + 5 <= |rows|
    ensures AdsIn(InsertAt(rows, 6 * k + 5, ad)) == AdsIn(rows) + [ad]
  {
    var p := 6 * k + 5;
    AdsInThree(rows[..p], ad, rows[p..]);
    AdsInConcat(rows[..p], rows[p..]);
    Rejoined(rows, p);
    NoAdsIn(rows[p..]);
  }

  lemma OneMoreAd(f: Feed, ad: int)
    requires Counted(f) && f.index + f.secondIndex <= |f.tempData|
    ensures Counted(WithOneAd(f, ad)) && AdsIn(WithOneAd(f, ad).tempData) == AdsIn(f.tempData) + [ad]
  {
    AdsInInsert(f.tempData, f.secondIndex, ad);
    NoAdsBehindInsert(f.tempData, f.secondIndex, ad);
  }

  lemma FirstAndRest(a: seq<int>, b: seq<int>)
    requires b != []
    ensures a + [b[0]] + b[1..] == a + b
  {
  }

  lemma {:induction false} AdsPlacedInOrder(f: Feed, ads: seq<int>)
    requires Counted(f) && InsertAds(f, ads).Some?
    ensures AdsIn(InsertAds(f, ads).value.tempData) == AdsIn(f.tempData) + ads
    decreases |ads|
  {
    if ads == [] {
      Nothing(AdsIn(f.tempData));
    } else {
      OneMoreAd(f, ads[0]);
      AdsPlacedInOrder(WithOneAd(f, ads[0]), ads[1..]);
      FirstAndRest(AdsIn(f.tempData), ads);
    }
  }

  /** The ads of the round that is under way, once one more has come: at most as many as were asked for. */
  function Arrived(f: Feed, ad: int): seq<int> {
    if |f.nativeAds| == f.numAdsToLoad then f.nativeAds else f.nativeAds + [ad]
  }

  /** Which ads are on the screen: with the one that completes a round all of it, in the order in which they came,
      below those of the rounds before; no other block changes them, but for a refresh and a first page. */
  lemma StepShowsAds(f: Feed, e: Event)
    requires Counted(f) && Step(f, e).Some?
    ensures AdsIn(Step(f, e).value.tempData)
         == if e.Refresh? || e.FirstPage? then []
            else if Completes(f, e) then AdsIn(f.tempData) + Arrived(f, e.ad)
            else AdsIn(f.tempData)
    ensures e.Receive? && !f.adFlag ==> Step(f, e).value.nativeAds == Arrived(f, e.ad)
  {
    match e
    case FirstPage(ps) => NoAdsIn(Posts(ps));
    case Page(ps) =>
      AdsInConcat(f.tempData, Posts(ps));
      NoAdsIn(Posts(ps));
    case Receive(ad) =>
      var g := if |f.nativeAds| != f.numAdsToLoad then f.(nativeAds := f.nativeAds + [ad]) else f;
      if Completes(f, e) {
        AdsPlacedInOrder(g, g.nativeAds);
        InsertAdsAnywhere(g, g.nativeAds);
        NativeAdsStay(g, g.nativeAds);
      }
    case _ =>
  }

  lemma {:induction false} NativeAdsStay(f: Feed, ads: seq<int>)
    ensures InsertAds(f, ads).Some? ==> InsertAds(f, ads).value.nativeAds == f.nativeAds
    decreases |ads|
  {
    if ads != [] && f.index + f.secondIndex <= |f.tempData| {
      NativeAdsStay(WithOneAd(f, ads[0]), ads[1..]);
    }
  }

  // ------------------------------------- a page before the ads of the first

  function Receives(n: nat): (es: seq<Event>)
    ensures |es| == n
  {
    if n == 0 then [] else [Receive(n)] + Receives(n - 1)
  }

  lemma {:induction false} RunConcat(f: Feed, a: seq<Event>, b: seq<Event>)
    ensures Run(f, a + b) == if Run(f, a).None? then None else Run(Run(f, a).value, b)
    decreases |a|
  {
    if a == [] {
      assert a + b == b;
    } else {
      assert (a + b)[0] == a[0] && (a + b)[1..] == a[1..] + b;
      var g := Step(f, a[0]);
      if g.Some? {
        RunConcat(g.value, a[1..], b);
      }
    }
  }

  /** A whole round of ads: it traps exactly when it does not fit. */
  lemma {:induction false} ReceiveRound(f: Feed, posts: seq<int>, n: nat)
    requires LaidOut(f, posts) && !f.adFlag && |f.nativeAds| + n == f.numAdsToLoad && n > 0
    ensures Run(f, Receives(n)).None? <==> 5 * (f.secondIndex + f.numAdsToLoad) > |posts|
    ensures Run(f, Receives(n)).Some? ==>
              var g := Run(f, Receives(n)).value;
              LaidOut(g, posts) && g.secondIndex == f.secondIndex + f.numAdsToLoad && g.isLoading == f.isLoading
    decreases n
  {
    var es := Receives(n);
    assert es[1..] == Receives(n - 1);
    ReceivedExact(f, posts, n);
    if n > 1 {
      ReceiveRound(Received(f, n).value, posts, n - 1);
    }
  }

  /** The order that `Orderly` excludes: a further page overtakes the request for the ads of the
      first one, whose number is then counted from both pages. */
  function Overtaken(ps: seq<int>, qs: seq<int>): seq<Event> {
    [Refresh, FirstPage(ps), More, Cursor, Page(qs), FirstAds] + Receives((|ps| + |qs|) / 5)
    + ([PageAds(|qs|), More] + Receives(|qs| / 5))
  }

  lemma BeforeAds(f: Feed, ps: seq<int>, qs: seq<int>)
    requires |ps| > 5
    ensures var r := Run(f, [Refresh, FirstPage(ps), More, Cursor, Page(qs), FirstAds]);
            r == Some(Feed(Posts(ps) + Posts(qs), [], (|ps| + |qs|) / 5, 5, 0, false, true))
            && LaidOut(r.value, ps + qs)
  {
    WithoutAdsPosts(ps);
    AppendedPage(Posts(ps), 0, qs);
    var es := [Refresh, FirstPage(ps), More, Cursor, Page(qs), FirstAds];
    var a := Step(f, es[0]).value;
    var b := Step(a, es[1]).value;
    var c := Step(b, es[2]).value;
    assert Step(c, es[3]) == Some(c);
    var d := Step(c, es[4]).value;
    var g := Step(d, es[5]).value;
    assert es[5..] == [es[5]] && es[5..][1..] == [];
    assert Run(d, es[5..]) == Some(g);
    assert es[4..][1..] == es[5..] && Run(c, es[4..]) == Run(d, es[5..]);
    assert es[3..][1..] == es[4..] && Run(c, es[3..]) == Run(c, es[4..]);
    assert es[2..][1..] == es[3..] && Run(b, es[2..]) == Run(c, es[3..]);
    assert es[1..][1..] == es[2..] && Run(a, es[1..]) == Run(b, es[2..]);
  }

  /** In that order the view traps exactly when the further page brings ads of its own. */
  lemma OvertakenTraps(f: Feed, ps: seq<int>, qs: seq<int>)
    requires |ps| > 5
    ensures Run(f, Overtaken(ps, qs)).None? <==> |qs| >= 5
  {
    var es, first, second := [Refresh, FirstPage(ps), More, Cursor, Page(qs), FirstAds], Receives((|ps| + |qs|) / 5),
      Receives(|qs| / 5);
    var posts := ps + qs;
    BeforeAds(f, ps, qs);
    var g := Run(f, es).value;
    RunConcat(f, es, first);
    RunConcat(f, es + first, [PageAds(|qs|), More] + second);
    ReceiveRound(g, posts, (|ps| + |qs|) / 5);
    var h := Run(g, first).value;
    NextRound(h, posts, |qs|);
  }

  lemma NextRound(h: Feed, posts: seq<int>, n: nat)
    requires LaidOut(h, posts) && 5 * h.secondIndex + 5 > |posts|
    ensures Run(h, [PageAds(n), More] + Receives(n / 5)).None? <==> n >= 5
  {
    var a := Step(h, PageAds(n)).value;
    var b := Step(a, More).value;
    var es := [PageAds(n), More] + Receives(n / 5);
    assert es[1..][0] == More && es[1..][1..] == Receives(n / 5);
    assert Run(h, es) == Run(a, es[1..]) == Run(b, Receives(n / 5));
    if n >= 5 {
      ReceiveRound(b, posts, n / 5);
    }
  }

  // ------------------------------------------------- any order whatsoever

  /** The ad completes a round: now all of them are placed. */
  predicate Completes(f: Feed, e: Event) {
    && e.Receive? && !f.adFlag && f.numAdsToLoad > 0
    && (|f.nativeAds| == f.numAdsToLoad || |f.nativeAds| + 1 == f.numAdsToLoad)
  }

  /** A whole round does not fit behind the ads that are placed. */
  predicate TooMany(f: Feed) {
    5 * (f.secondIndex + f.numAdsToLoad) + f.secondIndex > |f.tempData|
  }

  /** What holds in every order of the blocks: both counters agree, and ads are nowhere but at
      rows that they have passed. */
  predicate Counted(f: Feed) {
    f.index == 5 + 5 * f.secondIndex && NoAdsBehind(f.tempData, f.secondIndex)
  }

  predicate NoAdsBehind(rows: seq<Entry>, k: nat) {
    forall r :: 0 <= r < |rows| && rows[r].Ad? ==> r % 6 == 5 && r / 6 < k
  }

  lemma NoAdsBehindInsert(rows: seq<Entry>, k: nat, ad: int)
    requires NoAdsBehind(rows, k) && 6 * k + 5 <= |rows|
    ensures NoAdsBehind(InsertAt(rows, 6 * k + 5, ad), k + 1)
  {
    var p, more := 6 * k + 5, InsertAt(rows, 6 * k + 5, ad);
    assert p % 6 == 5 && p / 6 == k;
    forall r | 0 <= r < |more|
      ensures more[r].Post? || (r % 6 == 5 && r / 6 < k + 1)
    {
      if r < p {
        assert more[r] == rows[r];
      } else if r > p {
        assert more[r] == rows[r - 1];
      }
    }
  }

  lemma {:induction false} InsertAdsAnywhere(f: Feed, ads: seq<int>)
    requires Counted(f)
    ensures InsertAds(f, ads).Some? <==> ads == [] || 5 * (f.secondIndex + |ads|) + f.secondIndex <= |f.tempData|
    ensures InsertAds(f, ads).Some? ==> Counted(InsertAds(f, ads).value)
    decreases |ads|
  {
    if ads != [] && f.index + f.secondIndex <= |f.tempData| {
      NoAdsBehindInsert(f.tempData, f.secondIndex, ads[0]);
      InsertAdsAnywhere(WithOneAd(f, ads[0]), ads[1..]);
    }
  }

  lemma NoAdsInPage(rows: seq<Entry>, k: nat, ps: seq<int>)
    requires NoAdsBehind(rows, k)
    ensures NoAdsBehind(rows + Posts(ps), k)
  {
    forall r | 0 <= r < |rows + Posts(ps)| && (rows + Posts(ps))[r].Ad?
      ensures r % 6 == 5 && r / 6 < k
    {
      assert r < |rows| && rows[r].Ad?;
    }
  }

  lemma CursorIsPost(f: Feed)
    requires Counted(f) && |f.tempData| > 5
    ensures 0 <= CursorRow(f) < |f.tempData| && f.tempData[CursorRow(f)].Post?
  {
    var n := |f.tempData|;
    if f.tempData[n - 1].Ad? {
      assert (n - 1) % 6 == 5;
    }
  }

  /** Whatever block runs next, it traps exactly when it completes a round of too many ads. */
  lemma StepExact(f: Feed, e: Event)
    requires Counted(f)
    ensures Step(f, e).None? <==> Completes(f, e) && TooMany(f)
    ensures Step(f, e).Some? ==> Counted(Step(f, e).value)
  {
    match e
    case Receive(ad) =>
      var g := if |f.nativeAds| != f.numAdsToLoad then f.(nativeAds := f.nativeAds + [ad]) else f;
      InsertAdsAnywhere(g, g.nativeAds);
    case Page(ps) => NoAdsInPage(f.tempData, f.secondIndex, ps);
    case Cursor => if |f.tempData| > 5 { CursorIsPost(f); }
    case _ =>
  }

  /** Somewhere in the run a round of too many ads is completed. */
  predicate Overruns(f: Feed, es: seq<Event>)
    decreases |es|
  {
    && es != []
    && ((Completes(f, es[0]) && TooMany(f))
        || (Step(f, es[0]).Some? && Overruns(Step(f, es[0]).value, es[1..])))
  }

  /** Runs of any blocks in any order -- stale pages from before a refresh, ads of old loaders,
      pages that overtake each other: a run traps exactly when it completes a round of ads for
      which there are too few rows. */
  lemma {:induction false} RunsExact(f: Feed, es: seq<Event>)
    requires Counted(f)
    ensures Run(f, es).None? <==> Overruns(f, es)
    decreases |es|
  {
    if es != [] {
      StepExact(f, es[0]);
      if Step(f, es[0]).Some? {
        RunsExact(Step(f, es[0]).value, es[1..]);
      }
    }
  }

  /** In particular every run from a refresh. */
  lemma RefreshedRunsExact(f: Feed, es: seq<Event>)
    ensures Run(f, [Refresh] + es).None? <==> Overruns(Step(f, Refresh).value, es)
  {
    var all := [Refresh] + es;
    assert all[0] == Refresh && all[1..] == es;
    RunsExact(Step(f, Refresh).value, es);
  }

  /** A page that was asked for before a refresh and arrives before the first page: it is
      overwritten, but its ads are still asked for. */
  function StalePage(ps: seq<int>, qs: seq<int>): seq<Event> {
    [Refresh, Page(qs), FirstPage(ps), PageAds(|qs|)] + Receives(|qs| / 5)
  }

  /** It makes the view trap exactly when it calls for more ads than the new posts have room
      for. */
  lemma StalePageTraps(f: Feed, ps: seq<int>, qs: seq<int>)
    ensures Run(f, StalePage(ps, qs)).None? <==> |qs| >= 5 && 5 * (|qs| / 5) > |ps|
  {
    var es := [Refresh, Page(qs), FirstPage(ps), PageAds(|qs|)];
    AfterStalePage(f, ps, qs);
    RunConcat(f, es, Receives(|qs| / 5));
    if |qs| >= 5 {
      ReceiveRound(Run(f, es).value, ps, |qs| / 5);
    }
  }

  lemma AfterStalePage(f: Feed, ps: seq<int>, qs: seq<int>)
    ensures var r := Run(f, [Refresh, Page(qs), FirstPage(ps), PageAds(|qs|)]);
            r == Some(Feed(Posts(ps), [], |qs| / 5, 5, 0, false, false)) && LaidOut(r.value, ps)
  {
    WithoutAdsPosts(ps);
    assert Posts([]) == [];
    var es := [Refresh, Page(qs), FirstPage(ps), PageAds(|qs|)];
    var a := Step(f, es[0]).value;
    var b := Step(a, es[1]).value;
    var c := Step(b, es[2]).value;
    var d := Step(c, es[3]).value;
    assert es[3..] == [es[3]] && es[3..][1..] == [] && Run(c, es[3..]) == Some(d);
    assert es[2..][1..] == es[3..] && Run(b, es[2..]) == Run(c, es[3..]);
    assert es[1..][1..] == es[2..] && Run(a, es[1..]) == Run(b, es[2..]);
  }

  /** The smallest case: three posts, a stale page of five, and the one ad for it. */
  lemma StalePageWitness(f: Feed)
    ensures Run(f, [Refresh, Page([1, 2, 3, 4, 5]), FirstPage([6, 7, 8]), PageAds(5), Receive(1)]) == None
  {
    StalePageTraps(f, [6, 7, 8], [1, 2, 3, 4, 5]);
    assert Receives(1) == [Receive(1)];
    assert StalePage([6, 7, 8], [1, 2, 3, 4, 5])
        == [Refresh, Page([1, 2, 3, 4, 5]), FirstPage([6, 7, 8]), PageAds(5), Receive(1)];
  }

  // ------------------------------------------------------------ the class

  class ForumView {
    var tempData: seq<Entry>
    var nativeAds: seq<int>
    var numAdsToLoad: nat
    var index: nat
    var secondIndex: nat
    var adFlag: bool
    var isLoading: bool
    // What has been delivered since the refresh, and what may still come.
    ghost var env: Env

    ghost function Now(): Feed
      reads this
    {
      Feed(tempData, nativeAds, numAdsToLoad, index, secondIndex, adFlag, isLoading)
    }

    /** The posts of all pages in order, ads at the rows 5, 11, 17 and so on, and nothing due
        that would not fit. */
    ghost predicate Valid()
      reads this
    {
      Good(Now(), env)
    }

    constructor ()
      ensures Valid() && env == Env(Waiting, Calm, 0, [])
    {
      tempData, nativeAds, numAdsToLoad, index, secondIndex, adFlag, isLoading := [], [], 0, 5, 0, false, false;
      env := Env(Waiting, Calm, 0, []);
    }

    /** From any state: an empty feed that waits for its first page. */
    method RefreshData()
      modifies this
      ensures Some(Now()) == Step(old(Now()), Refresh)
      ensures Valid() && env == Next(old(env), Refresh, |old(tempData)|)
    {
      RefreshStarts(Now(), env);
      env := Next(env, Refresh, |tempData|);
      adFlag := false;
      tempData := [];
      numAdsToLoad := 0;
      nativeAds := [];
      index := 5;
      secondIndex := 0;
      isLoading := false;
    }

    /** The callback of `sortData` */
    method OnFirstPage(returnData: seq<int>)
      requires Valid() && Allowed(env, FirstPage(returnData))
      modifies this
      ensures Some(Now()) == Step(old(Now()), FirstPage(returnData))
      ensures Valid() && env == Next(old(env), FirstPage(returnData), |old(tempData)|) && env.posts == returnData
      ensures nativeAds == (if returnData == [] then [] else old(nativeAds)) && numAdsToLoad == 0
    {
      StepKeeps(Now(), env, FirstPage(returnData));
      env := Next(env, FirstPage(returnData), |tempData|);
      if |returnData| > 0 {
        tempData := Posts(returnData);
      } else {
        tempData := [];
        nativeAds := [];
        numAdsToLoad := 0;
      }
    }

    method AddAds(count: nat)
      modifies this`numAdsToLoad
      ensures numAdsToLoad == count
    {
      numAdsToLoad := count;
    }

    /** As many ads as fit are asked for, one for every five posts. */
    method AskForFirstAds()
      requires Valid() && Allowed(env, FirstAds)
      modifies this
      ensures Some(Now()) == Step(old(Now()), FirstAds)
      ensures Valid() && env == Next(old(env), FirstAds, |old(tempData)|)
      ensures env.remaining == numAdsToLoad == |env.posts| / 5
    {
      StepKeeps(Now(), env, FirstAds);
      env := Next(env, FirstAds, |tempData|);
      AddAds(|tempData| / 5);
    }

    /** While a page is being loaded nothing happens. */
    method LoadMoreData()
      requires Valid()
      modifies this
      ensures Some(Now()) == Step(old(Now()), More)
      ensures Valid() && env == Next(old(env), More, |old(tempData)|)
      ensures isLoading && (old(env).load != Calm ==> Now() == old(Now()))
    {
      StepKeeps(Now(), env, More);
      env := Next(env, More, |tempData|);
      if !isLoading {
        isLoading := true;
        adFlag := false;
        nativeAds := [];
      }
    }

    /** The block behind the sleep: with more than five rows it asks for the page behind the last
        post, whether or not an ad comes after that post. */
    method AskForPage() returns (start: Option<int>)
      requires Valid() && Allowed(env, Cursor)
      modifies this
      ensures Some(Now()) == Step(old(Now()), Cursor)
      ensures Valid() && env == Next(old(env), Cursor, |old(tempData)|)
      ensures start.Some? <==> |old(tempData)| > 5
      ensures start.Some? ==> env.posts != [] && start.value == env.posts[|env.posts| - 1]
    {
      StepKeeps(Now(), env, Cursor);
      env := Next(env, Cursor, |tempData|);
      start := CursorStart(env.posts);
      if start.None? {
        isLoading := false;
      }
    }

    /** The document of the last row, or of the one before it when that is an ad: the last post. */
    method CursorStart(ghost posts: seq<int>) returns (start: Option<int>)
      requires LaidOut(Now(), posts)
      ensures start.Some? <==> |tempData| > 5
      ensures start.Some? ==> posts != [] && start.value == posts[|posts| - 1]
    {
      var tempIndex := 0;
      if |tempData| < 5 {
        tempIndex := |tempData| - 1;
      } else if tempData[|tempData| - 1].Ad? {
        tempIndex := |tempData| - 2;
      } else {
        tempIndex := |tempData| - 1;
      }
      if |tempData| <= 5 {
        return None;
      }
      CursorIsLastPost(Now(), posts);
      start := Some(tempData[tempIndex].lastDocument);
    }

    /** A further page: its posts follow those that are there. */
    method OnPage(returnData: seq<int>)
      requires Valid() && Allowed(env, Page(returnData))
      modifies this
      ensures Some(Now()) == Step(old(Now()), Page(returnData))
      ensures Valid() && env == Next(old(env), Page(returnData), |old(tempData)|)
      ensures env.posts == old(env).posts + returnData
    {
      StepKeeps(Now(), env, Page(returnData));
      env := Next(env, Page(returnData), |tempData|);
      tempData := tempData + Posts(returnData);
    }

    /** The ads for it, and the next page may be asked for. */
    method AskForPageAds(count: nat)
      requires Valid() && Allowed(env, PageAds(count))
      modifies this
      ensures Some(Now()) == Step(old(Now()), PageAds(count))
      ensures Valid() && env == Next(old(env), PageAds(count), |old(tempData)|) && !isLoading
    {
      StepKeeps(Now(), env, PageAds(count));
      env := Next(env, PageAds(count), |tempData|);
      AddAds(count / 5);
      isLoading := false;
    }

    /** The loop over both counters, which reaches its end exactly when the ads fit. */
    method AddNativeAds()
      requires Counted(Now()) && 5 * (secondIndex + |nativeAds|) + secondIndex <= |tempData|
      modifies this
      ensures Some(Now()) == WithNativeAds(old(Now())) && Counted(Now()) && env == old(env)
    {
      if |nativeAds| <= 0 {
        return;
      }
      ghost var start, g := Now(), Now();
      var i := 0;
      while i < |nativeAds|
        invariant 0 <= i <= |nativeAds| && g == Now() && env == old(env)
        invariant nativeAds == start.nativeAds && adFlag == start.adFlag
        invariant Counted(g) && 5 * (g.secondIndex + |nativeAds| - i) + g.secondIndex <= |g.tempData|
        invariant InsertAds(start, nativeAds) == InsertAds(g, nativeAds[i..])
        decreases |nativeAds| - i
      {
        assert nativeAds[i..][0] == nativeAds[i] && nativeAds[i..][1..] == nativeAds[i + 1..];
        PlaceAd(nativeAds[i]);
        g := Now();
        i := i + 1;
      }
      adFlag := true;
    }

    /** One round of it. */
    method PlaceAd(nativeAd: int)
      requires Counted(Now()) && 6 * secondIndex + 5 <= |tempData|
      modifies this
      ensures Now() == WithOneAd(old(Now()), nativeAd) && Counted(Now()) && env == old(env)
    {
      NoAdsBehindInsert(tempData, secondIndex, nativeAd);
      tempData := InsertAt(tempData, index + secondIndex, nativeAd);
      index := index + 5;
      secondIndex := secondIndex + 1;
    }

    /** An ad of the latest loader: kept until its round is complete, then all are placed. */
    method DidReceive(nativeAd: int)
      requires Valid() && Allowed(env, Receive(nativeAd))
      modifies this
      ensures Some(Now()) == Step(old(Now()), Receive(nativeAd))
      ensures Valid() && env == Next(old(env), Receive(nativeAd), |old(tempData)|)
      ensures secondIndex == old(secondIndex) + if Completes(old(Now()), Receive(nativeAd)) then numAdsToLoad else 0
      ensures AdsIn(tempData) == old(AdsIn(tempData))
                               + if Completes(old(Now()), Receive(nativeAd)) then Arrived(old(Now()), nativeAd) else []
    {
      ghost var f := Now();
      StepKeeps(f, env, Receive(nativeAd));
      ReceivedExact(f, env.posts, nativeAd);
      GoodIsCounted(f, env);
      StepShowsAds(f, Receive(nativeAd));
      env := Next(env, Receive(nativeAd), |tempData|);
      if !adFlag {
        if |nativeAds| != numAdsToLoad {
          nativeAds := nativeAds + [nativeAd];
        }
        if |nativeAds| == numAdsToLoad && numAdsToLoad > 0 {
          AddNativeAds();
        }
      }
    }

    /** No more ads are placed until the next page. */
    method DidFailToReceiveAd()
      requires Valid()
      modifies this
      ensures Some(Now()) == Step(old(Now()), FailAd)
      ensures Valid() && env == old(env) && tempData == old(tempData)
      ensures forall ad :: !Completes(Now(), Receive(ad))
    {
      StepKeeps(Now(), env, FailAd);
      adFlag := true;
    }
  }

  /** The orderly states are among all states. */
  lemma GoodIsCounted(f: Feed, v: Env)
    requires Good(f, v)
    ensures Counted(f)
  {
  }
}
