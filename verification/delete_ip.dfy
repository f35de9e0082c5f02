/** delete-ip.py: for TYPE `ip` it pages through the assets that match
    VALUE and archives each one whose address is VALUE; for both types it
    then pages through the sources and deletes each one whose lower-cased
    keyword is VALUE, counting what it archived and deleted. The searches
    and endpoint calls are oracles; the printing is left out. */
module DeleteIp {
  import opened Py
  import opened Text
  import opened Json
  import opened Api
  import opened ScriptLoops

  /** An asset is archived when it has an address whose `str` is VALUE,
      compared exactly. */
  predicate AssetMatches(value: string, asset: Entity) {
    "bd.ip_address" in asset && StrOf(asset["bd.ip_address"]) == value
  }

  /** A source is deleted when it has a keyword whose `str`, lower-cased, is
      VALUE; VALUE itself is not lower-cased. */
  predicate SourceMatches(value: string, source: Entity) {
    "keyword" in source && Lower(StrOf(source["keyword"])) == value
  }

  /** A VALUE holding an upper-case letter deletes no source. */
  lemma UpperValueMatchesNoSource(value: string, sources: seq<Entity>)
    requires HasUpperAscii(value)
    ensures forall k :: 0 <= k < |sources| ==> !SourceMatches(value, sources[k])
    ensures CountSelected(sources, (s: Entity) => SourceMatches(value, s)) == 0
  {
    forall k | 0 <= k < |sources| && "keyword" in sources[k]
      ensures Lower(StrOf(sources[k]["keyword"])) != value
    {
      LowerNeverEqualsUpperCased(StrOf(sources[k]["keyword"]), value);
    }
    CountNone(sources, (s: Entity) => SourceMatches(value, s));
  }

  /** `archive_ip(asset['id'])` runs inside the retried lambda: a missing id
      raises `KeyError` and a non-string id makes the string concatenation
      raise `TypeError`, on every attempt. */
  predicate ArchiveArgRaises(asset: Entity) {
    "id" !in asset || !asset["id"].Str?
  }

  /** `delete_source(str(source['id']))`: only a missing id raises. */
  predicate DeleteArgRaises(source: Entity) {
    "id" !in source
  }

  /** The retried call for the k-th item: an attempt raises when the
      argument does or the endpoint does. */
  function CallOk(items: seq<Entity>, argRaises: Entity -> bool, raised: nat -> nat -> bool, k: nat): bool {
    k < |items| && Succeeds((j: nat) => argRaises(items[k]) || raised(k)(j))
  }

  /** A call comes back exactly when its argument is sound and some of its
      five tries reach the endpoint without raising. */
  lemma CallOkSpec(items: seq<Entity>, argRaises: Entity -> bool, raised: nat -> nat -> bool, k: nat)
    requires k < |items|
    ensures CallOk(items, argRaises, raised, k) <==> !argRaises(items[k]) && !Exhausted(raised(k))
  {
    var r := (j: nat) => argRaises(items[k]) || raised(k)(j);
    SucceedsSpec(r);
    if !argRaises(items[k]) {
      assert forall j :: r(j) == raised(k)(j);
    } else {
      assert r(0);
    }
  }

  /** Lines 70-84: archive every matching asset of the pages. */
  function ArchivePass(value: string, pages: seq<Response>, raised: nat -> nat -> bool): Run {
    var assets := AssetsOf(pages);
    CallEach(assets, (a: Entity) => AssetMatches(value, a), (k: nat) => CallOk(assets, ArchiveArgRaises, raised, k))
  }

  /** Lines 117-131: delete every matching source of the pages. */
  function DeletePass(value: string, pages: seq<Response>, raised: nat -> nat -> bool): Run {
    var sources := SearchesOf(pages);
    CallEach(sources, (s: Entity) => SourceMatches(value, s), (k: nat) => CallOk(sources, DeleteArgRaises, raised, k))
  }

  /** How the script ends: the `deletednum` it prints, `exit(1)`, an
      uncaught exception, or a pagination loop still going when the fuel
      runs out. */
  datatype Outcome = Done(deleted: nat) | Exit1 | Uncaught(exc: Exception) | Endless

  function Stopped(p: Paged): Outcome
    requires !p.Collected?
  {
    match p
    case GaveUp => Exit1
    case Crashed(e) => Uncaught(e)
    case Unfinished => Endless
  }

  /** The asset search: `search_for_ip_address(LIMIT, lastid, VALUE)`, the
      next `lastid` read by `get_lastid` off the page's `assets`. */
  function AssetSearch(c: Client, limit: int, value: string, answer: nat -> Request -> Option<Response>): Search {
    Search((lastid: string) => SearchForIpAddress(c, limit, lastid, value), answer, GetLastId)
  }

  /** The source half, after `archived` assets; `cursorOf` reads each
      source page's `lastid` (`GetLastId` as the script is written). */
  function SourceStage(c: Client, value: string, start: int, limit: int, fuel: nat, archived: nat,
                       cursorOf: Response -> string, sourceAnswer: nat -> Request -> Option<Response>,
                       deleteRaised: nat -> nat -> bool): Outcome
  {
    var p := Paginate(SourceSearch(c, limit, value, sourceAnswer, cursorOf), Reached, start, limit, fuel);
    if !p.Collected? then Stopped(p)
    else match DeletePass(value, p.pages, deleteRaised)
      case Exited(_) => Exit1
      case Finished(n) => Done(archived + n)
  }

  /** The script for one inventory. */
  function DeleteIpRun(c: Client, ipType: string, value: string, start: int, limit: int, fuel: nat,
                       cursorOf: Response -> string,
                       assetAnswer: nat -> Request -> Option<Response>, sourceAnswer: nat -> Request -> Option<Response>,
                       archiveRaised: nat -> nat -> bool, deleteRaised: nat -> nat -> bool): Outcome
  {
    if ipType != "ip" then SourceStage(c, value, start, limit, fuel, 0, cursorOf, sourceAnswer, deleteRaised)
    else
      var p := Paginate(AssetSearch(c, limit, value, assetAnswer), Reached, start, limit, fuel);
      if !p.Collected? then Stopped(p)
      else match ArchivePass(value, p.pages, archiveRaised)
        case Exited(_) => Exit1
        case Finished(n) => SourceStage(c, value, start, limit, fuel, n, cursorOf, sourceAnswer, deleteRaised)
  }

  /** For TYPE `source` the assets are never searched: the outcome is the
      source half's, whatever the asset searches and archive calls do. */
  lemma SourceTypeSkipsAssets(c: Client, value: string, start: int, limit: int, fuel: nat, cursorOf: Response -> string,
                              assetAnswer: nat -> Request -> Option<Response>, sourceAnswer: nat -> Request -> Option<Response>,
                              archiveRaised: nat -> nat -> bool, deleteRaised: nat -> nat -> bool)
    ensures DeleteIpRun(c, "source", value, start, limit, fuel, cursorOf, assetAnswer, sourceAnswer, archiveRaised, deleteRaised)
         == SourceStage(c, value, start, limit, fuel, 0, cursorOf, sourceAnswer, deleteRaised)
  {
  }

  /** A call that fails for a matching item ends the pass at `exit(1)`. */
  lemma PassExitsOnFailure(items: seq<Entity>, select: Entity -> bool, ok: nat -> bool, k: nat)
    requires FailsAt(items, select, ok, k)
    ensures CallEach(items, select, ok).Exited?
  {
    CallEachSpec(items, select, ok);
  }

  /** The source half: when the source pages are collected and every call
      for a matching source comes back, it adds the matching sources to
      the count it was given. */
  lemma SourceStageCount(c: Client, value: string, start: int, limit: int, fuel: nat, archived: nat,
                         cursorOf: Response -> string, sourceAnswer: nat -> Request -> Option<Response>,
                         deleteRaised: nat -> nat -> bool, sourcesCollected: seq<Response>)
    requires Paginate(SourceSearch(c, limit, value, sourceAnswer, cursorOf), Reached, start, limit, fuel) == Collected(sourcesCollected)
    requires forall k :: 0 <= k < |SearchesOf(sourcesCollected)| && SourceMatches(value, SearchesOf(sourcesCollected)[k]) ==>
               !DeleteArgRaises(SearchesOf(sourcesCollected)[k]) && !Exhausted(deleteRaised(k))
    ensures SourceStage(c, value, start, limit, fuel, archived, cursorOf, sourceAnswer, deleteRaised)
         == Done(archived + CountSelected(SearchesOf(sourcesCollected), (s: Entity) => SourceMatches(value, s)))
  {
    var sources := SearchesOf(sourcesCollected);
    var sSel := (s: Entity) => SourceMatches(value, s);
    var sOk := (k: nat) => CallOk(sources, DeleteArgRaises, deleteRaised, k);
    forall k | 0 <= k < |sources|
      ensures !FailsAt(sources, sSel, sOk, k)
    {
      CallOkSpec(sources, DeleteArgRaises, deleteRaised, k);
    }
    CallEachSpec(sources, sSel, sOk);
  }

  /** `deletednum`: when the searches collect their pages and every call
      for a matching item comes back, the count is the matching assets (for
      TYPE `ip`) plus the matching sources. */
  lemma DeletedCount(c: Client, ipType: string, value: string, start: int, limit: int, fuel: nat, cursorOf: Response -> string,
                     assetAnswer: nat -> Request -> Option<Response>, sourceAnswer: nat -> Request -> Option<Response>,
                     archiveRaised: nat -> nat -> bool, deleteRaised: nat -> nat -> bool,
                     assetsCollected: seq<Response>, sourcesCollected: seq<Response>)
    requires ipType == "ip" ==> Paginate(AssetSearch(c, limit, value, assetAnswer), Reached, start, limit, fuel) == Collected(assetsCollected)
    requires Paginate(SourceSearch(c, limit, value, sourceAnswer, cursorOf), Reached, start, limit, fuel) == Collected(sourcesCollected)
    requires ipType == "ip" ==>
               forall k :: 0 <= k < |AssetsOf(assetsCollected)| && AssetMatches(value, AssetsOf(assetsCollected)[k]) ==>
                 !ArchiveArgRaises(AssetsOf(assetsCollected)[k]) && !Exhausted(archiveRaised(k))
    requires forall k :: 0 <= k < |SearchesOf(sourcesCollected)| && SourceMatches(value, SearchesOf(sourcesCollected)[k]) ==>
               !DeleteArgRaises(SearchesOf(sourcesCollected)[k]) && !Exhausted(deleteRaised(k))
    ensures DeleteIpRun(c, ipType, value, start, limit, fuel, cursorOf, assetAnswer, sourceAnswer, archiveRaised, deleteRaised)
         == Done((if ipType == "ip" then CountSelected(AssetsOf(assetsCollected), (a: Entity) => AssetMatches(value, a)) else 0)
                 + CountSelected(SearchesOf(sourcesCollected), (s: Entity) => SourceMatches(value, s)))
  {
    var archived := 0;
    if ipType == "ip" {
      var assets := AssetsOf(assetsCollected);
      var aSel := (a: Entity) => AssetMatches(value, a);
      var aOk := (k: nat) => CallOk(assets, ArchiveArgRaises, archiveRaised, k);
      forall k | 0 <= k < |assets|
        ensures !FailsAt(assets, aSel, aOk, k)
      {
        CallOkSpec(assets, ArchiveArgRaises, archiveRaised, k);
      }
      CallEachSpec(assets, aSel, aOk);
      archived := CountSelected(assets, aSel);
    }
    SourceStageCount(c, value, start, limit, fuel, archived, cursorOf, sourceAnswer, deleteRaised, sourcesCollected);
  }

  /** A matching asset whose id is missing or not a string ends the script
      at `exit(1)` once the asset pages are collected. */
  lemma BadIdExits(c: Client, value: string, start: int, limit: int, fuel: nat, cursorOf: Response -> string,
                   assetAnswer: nat -> Request -> Option<Response>, sourceAnswer: nat -> Request -> Option<Response>,
                   archiveRaised: nat -> nat -> bool, deleteRaised: nat -> nat -> bool,
                   assetsCollected: seq<Response>, k: nat)
    requires Paginate(AssetSearch(c, limit, value, assetAnswer), Reached, start, limit, fuel) == Collected(assetsCollected)
    requires k < |AssetsOf(assetsCollected)| && AssetMatches(value, AssetsOf(assetsCollected)[k])
    requires ArchiveArgRaises(AssetsOf(assetsCollected)[k])
    ensures DeleteIpRun(c, "ip", value, start, limit, fuel, cursorOf, assetAnswer, sourceAnswer, archiveRaised, deleteRaised) == Exit1
  {
    var assets := AssetsOf(assetsCollected);
    CallOkSpec(assets, ArchiveArgRaises, archiveRaised, k);
    PassExitsOnFailure(assets, (a: Entity) => AssetMatches(value, a), (j: nat) => CallOk(assets, ArchiveArgRaises, archiveRaised, j), k);
  }

  // ---- the source cursor ----

  /** Two sources for VALUE `x`, one per page of a search with LIMIT 1;
      both pages report a total of 2. */
  const FirstSource: Entity := map["id" := Str("7"), "keyword" := Str("x")]
  const SecondSource: Entity := map["id" := Str("8"), "keyword" := Str("x")]
  const FirstPage: Response := Response(None, Some([FirstSource]), Some(Int(2)))
  const SecondPage: Response := Response(None, Some([SecondSource]), Some(Int(2)))

  /** A server that pages by cursor: the first page for no cursor, the
      second after the first page's last id, nothing otherwise. */
  function PagedSources(c: Client): nat -> Request -> Option<Response> {
    (k: nat) => (q: Request) =>
      if q == SearchForSource(c, 1, "", "x") then Some(FirstPage)
      else if q == SearchForSource(c, 1, "7", "x") then Some(SecondPage)
      else None
  }

  const NeverRaises: nat -> nat -> bool := (k: nat) => (j: nat) => false

  /** As written: `get_lastid` finds no `assets` on the first page, so the
      second request repeats the first. The first source is deleted twice,
      the second never, and `deletednum` still reads 2. */
  lemma SourceCursorAsWritten(c: Client, assetAnswer: nat -> Request -> Option<Response>)
    ensures Paginate(SourceSearch(c, 1, "x", PagedSources(c), GetLastId), Reached, 0, 1, 1) == Collected([FirstPage, FirstPage])
    ensures SearchesOf([FirstPage, FirstPage]) == [FirstSource, FirstSource]
    ensures DeleteIpRun(c, "source", "x", 0, 1, 1, GetLastId, assetAnswer, PagedSources(c), NeverRaises, NeverRaises) == Done(2)
  {
    assert GetLastId(FirstPage) == "";
    TwoPages(FirstPage, FirstPage);
    BothDeleted(c, GetLastId, assetAnswer, [FirstPage, FirstPage]);
  }

  /** With the cursor read off `searches`, the second request carries the
      first page's last id and each source is deleted once. */
  lemma SourceCursorCorrected(c: Client, assetAnswer: nat -> Request -> Option<Response>)
    ensures Paginate(SourceSearch(c, 1, "x", PagedSources(c), LastSearchId), Reached, 0, 1, 1) == Collected([FirstPage, SecondPage])
    ensures SearchesOf([FirstPage, SecondPage]) == [FirstSource, SecondSource]
    ensures DeleteIpRun(c, "source", "x", 0, 1, 1, LastSearchId, assetAnswer, PagedSources(c), NeverRaises, NeverRaises) == Done(2)
  {
    assert LastSearchId(FirstPage) == "7" by {
      assert "id" in FirstSource && FirstSource["id"] == Str("7");
      assert FirstPage.searches.value == [FirstSource];
      assert [FirstSource][1..] == [];
      assert LastIdFrom([FirstSource], "") == LastIdFrom([], "7");
    }
    assert SearchForSource(c, 1, "7", "x") != SearchForSource(c, 1, "", "x");
    TwoPages(FirstPage, SecondPage);
    BothDeleted(c, LastSearchId, assetAnswer, [FirstPage, SecondPage]);
  }

  lemma TwoPages(p: Response, q: Response)
    requires p.searches.Some? && q.searches.Some?
    ensures SearchesOf([p, q]) == p.searches.value + q.searches.value
  {
    var lists := seq(2, k requires 0 <= k < 2 => [p, q][k].searches);
    assert lists[1..] == [q.searches];
    assert Flatten(lists[1..]) == q.searches.value + Flatten([]);
  }

  /** Two collected source pages whose two entries match and have ids:
      both deletions come back and are counted. */
  lemma BothDeleted(c: Client, cursorOf: Response -> string, assetAnswer: nat -> Request -> Option<Response>, pages: seq<Response>)
    requires Paginate(SourceSearch(c, 1, "x", PagedSources(c), cursorOf), Reached, 0, 1, 1) == Collected(pages)
    requires |SearchesOf(pages)| == 2
    requires forall k :: 0 <= k < 2 ==> SearchesOf(pages)[k] in {FirstSource, SecondSource}
    ensures DeleteIpRun(c, "source", "x", 0, 1, 1, cursorOf, assetAnswer, PagedSources(c), NeverRaises, NeverRaises) == Done(2)
  {
    var sources := SearchesOf(pages);
    var sel := (s: Entity) => SourceMatches("x", s);
    BothSourcesMatch();
    assert forall k :: 0 <= k < |sources| ==> sel(sources[k]) && !DeleteArgRaises(sources[k]);
    NeverExhausted();
    SourceStageCount(c, "x", 0, 1, 1, 0, cursorOf, PagedSources(c), NeverRaises, pages);
    CountAll(sources, sel);
  }

  lemma BothSourcesMatch()
    ensures SourceMatches("x", FirstSource) && !DeleteArgRaises(FirstSource)
    ensures SourceMatches("x", SecondSource) && !DeleteArgRaises(SecondSource)
  {
    assert Lower("x") == "x";
  }

  lemma NeverExhausted()
    ensures forall k: nat :: !Exhausted(NeverRaises(k))
  {
    forall k: nat
      ensures !Exhausted(NeverRaises(k))
    {
      assert !NeverRaises(k)(0);
    }
  }
}
