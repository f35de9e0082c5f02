/** auto-add-assets.py: from the inventory's source searches it builds the
    addresses the inventory already holds, reconciles them with the cloud
    provider's addresses through `remove_matches`, adds the new ones one
    retried call at a time, and on AWS adds one source per S3 bucket. The
    API calls, the CLI output and the printing are inputs or left out. */
module AutoAddAssets {
  import opened Py
  import opened Text
  import opened Json
  import opened Api
  import opened Cloud
  import opened ScriptLoops

  /** `merge_two_dicts(x, y)`: a copy of `x` updated with `y`; `x` itself is
      a value here, so it cannot change. */
  function MergeTwoDicts(x: Dict, y: Dict): (z: Dict)
    ensures z.Keys == x.Keys + y.Keys
    ensures forall k :: k in y ==> z[k] == y[k]
    ensures forall k :: k in x && k !in y ==> z[k] == x[k]
  {
    x + y
  }

  /** Merging with an empty map in either position changes nothing. */
  lemma MergeEmpty(x: Dict)
    ensures MergeTwoDicts(x, map[]) == x
    ensures MergeTwoDicts(map[], x) == x
  {
  }

  // ---- source addresses ----

  predicate IsIpRange(source: Entity) {
    "search_type" in source && source["search_type"] == Str("iprange")
  }

  /** The address one source search contributes: the lower-cased keyword of
      an `iprange` search, unless it holds `-` or `/`. A missing keyword
      raises `KeyError`; a keyword that is not a string has no `lower`. */
  function Candidate(source: Entity): (r: Result<Option<string>>)
    ensures !IsIpRange(source) ==> r == Ok(None)
    ensures r.Raise? <==> IsIpRange(source) && !("keyword" in source && source["keyword"].Str?)
    ensures r.Ok? && r.value.Some? ==>
              && IsIpRange(source)
              && r.value.value == Lower(source["keyword"].s)
              && '-' !in r.value.value && '/' !in r.value.value
    ensures IsIpRange(source) && "keyword" in source && source["keyword"].Str? ==>
              var c := Lower(source["keyword"].s);
              r == if '-' in c || '/' in c then Ok(None) else Ok(Some(c))
  {
    if !IsIpRange(source) then Ok(None)
    else if "keyword" !in source then Raise(KeyError)
    else if !source["keyword"].Str? then Raise(AttributeError)
    else
      var c := Lower(source["keyword"].s);
      if '-' in c || '/' in c then Ok(None) else Ok(Some(c))
  }

  /** The loop over the source searches, in order. */
  function Candidates(sources: seq<Entity>): Result<set<string>> {
    if sources == [] then Ok({})
    else
      var c :- Candidate(sources[0]);
      var rest :- Candidates(sources[1..]);
      Ok((if c.Some? then {c.value} else {}) + rest)
  }

  /** `sourceips`: every kept address, tagged 2. */
  function SourceIps(pages: seq<Response>): Result<Dict> {
    var ips :- Candidates(SearchesOf(pages));
    Ok(map ip | ip in ips :: 2)
  }

  /** The extraction fails exactly when some `iprange` search has no string
      keyword; otherwise it keeps exactly the addresses the searches give. */
  lemma {:induction false} CandidatesSpec(sources: seq<Entity>)
    ensures Candidates(sources).Raise? <==> exists i :: 0 <= i < |sources| && Candidate(sources[i]).Raise?
    ensures Candidates(sources).Ok? ==>
              forall ip :: ip in Candidates(sources).value <==> exists i :: 0 <= i < |sources| && Candidate(sources[i]) == Ok(Some(ip))
  {
    if sources != [] {
      var rest := sources[1..];
      CandidatesSpec(rest);
      assert forall i :: 0 <= i < |rest| ==> rest[i] == sources[i + 1];
      if exists i :: 0 <= i < |sources| && Candidate(sources[i]).Raise? {
        var i :| 0 <= i < |sources| && Candidate(sources[i]).Raise?;
        if i > 0 {
          assert Candidate(rest[i - 1]).Raise?;
        }
      }
      if Candidates(sources).Ok? {
        forall ip | exists i :: 0 <= i < |sources| && Candidate(sources[i]) == Ok(Some(ip))
          ensures ip in Candidates(sources).value
        {
          var i :| 0 <= i < |sources| && Candidate(sources[i]) == Ok(Some(ip));
          if i > 0 {
            assert Candidate(rest[i - 1]) == Ok(Some(ip));
          }
        }
      }
    }
  }

  /** The extraction raises exactly when some `iprange` search has no
      string keyword. Otherwise the source addresses are exactly the
      lower-cased `iprange` keywords holding neither `-` nor `/`, each
      tagged 2. */
  lemma SourceIpsSpec(pages: seq<Response>)
    ensures SourceIps(pages).Raise? <==>
              exists i :: 0 <= i < |SearchesOf(pages)| && IsIpRange(SearchesOf(pages)[i])
                          && !("keyword" in SearchesOf(pages)[i] && SearchesOf(pages)[i]["keyword"].Str?)
    ensures SourceIps(pages).Ok? ==>
              forall i :: 0 <= i < |SearchesOf(pages)| && IsIpRange(SearchesOf(pages)[i])
                          && "keyword" in SearchesOf(pages)[i] && SearchesOf(pages)[i]["keyword"].Str?
                          && '-' !in Lower(SearchesOf(pages)[i]["keyword"].s)
                          && '/' !in Lower(SearchesOf(pages)[i]["keyword"].s) ==>
                Lower(SearchesOf(pages)[i]["keyword"].s) in SourceIps(pages).value
                && SourceIps(pages).value[Lower(SearchesOf(pages)[i]["keyword"].s)] == 2
    ensures SourceIps(pages).Ok? ==>
              forall ip :: ip in SourceIps(pages).value ==>
                && SourceIps(pages).value[ip] == 2
                && '-' !in ip && '/' !in ip
                && exists i :: 0 <= i < |SearchesOf(pages)| && IsIpRange(SearchesOf(pages)[i])
                               && "keyword" in SearchesOf(pages)[i] && SearchesOf(pages)[i]["keyword"].Str?
                               && ip == Lower(SearchesOf(pages)[i]["keyword"].s)
  {
    CandidatesSpec(SearchesOf(pages));
  }

  /** The candidates of two runs of searches in a row: the first run's
      exception if it raises, else the second's, else both sets. */
  lemma {:induction false} CandidatesAppend(a: seq<Entity>, b: seq<Entity>)
    ensures Candidates(a).Raise? ==> Candidates(a + b) == Candidates(a)
    ensures Candidates(a).Ok? && Candidates(b).Raise? ==> Candidates(a + b) == Candidates(b)
    ensures Candidates(a).Ok? && Candidates(b).Ok? ==> Candidates(a + b) == Ok(Candidates(a).value + Candidates(b).value)
  {
    if a == [] {
      assert a + b == b;
      if Candidates(b).Ok? {
        assert {} + Candidates(b).value == Candidates(b).value;
      }
    } else {
      assert (a + b)[0] == a[0] && (a + b)[1..] == a[1..] + b;
      CandidatesAppend(a[1..], b);
      if Candidates(a).Ok? && Candidates(b).Ok? {
        var c := Candidate(a[0]).value;
        var head: set<string> := if c.Some? then {c.value} else {};
        assert Candidates(a).value == head + Candidates(a[1..]).value;
        assert Candidates(a + b).value == head + (Candidates(a[1..]).value + Candidates(b).value);
        assert head + (Candidates(a[1..]).value + Candidates(b).value) == (head + Candidates(a[1..]).value) + Candidates(b).value;
      }
    }
  }

  lemma SearchesCons(pages: seq<Response>)
    requires pages != []
    ensures SearchesOf(pages) == SearchesOf([pages[0]]) + SearchesOf(pages[1..])
  {
    var lists := seq(|pages|, k requires 0 <= k < |pages| => pages[k].searches);
    assert lists[1..] == seq(|pages| - 1, k requires 0 <= k < |pages| - 1 => pages[1..][k].searches);
    var single := [pages[0]];
    var one := seq(|single|, k requires 0 <= k < |single| => single[k].searches);
    assert one == [lists[0]] && one[1..] == [];
    var first := if lists[0].Some? then lists[0].value else [];
    assert Flatten(one) == first + Flatten([]) == first;
  }

  /** Pages that all repeat one page yield that page's candidates. */
  lemma {:induction false} CandidatesRepeat(pages: seq<Response>, p: Response)
    requires pages != [] && forall j :: 0 <= j < |pages| ==> pages[j] == p
    ensures Candidates(SearchesOf(pages)) == Candidates(SearchesOf([p]))
  {
    SearchesCons(pages);
    assert pages[0] == p;
    if |pages| > 1 {
      CandidatesRepeat(pages[1..], p);
      CandidatesAppend(SearchesOf([p]), SearchesOf(pages[1..]));
      if Candidates(SearchesOf([p])).Ok? {
        var ips := Candidates(SearchesOf([p])).value;
        assert ips + ips == ips;
      }
    } else {
      assert SearchesOf(pages[1..]) == [];
      assert SearchesOf([p]) + [] == SearchesOf([p]);
    }
  }

  /** The source search of lines 56-74: `search_for_source(LIMIT, lastid, "")`
      with `lastid` from `get_lastid`. */
  function SourcePages(c: Client, limit: int, answer: nat -> Request -> Option<Response>): Search {
    SourceSearch(c, limit, "", answer, GetLastId)
  }

  /** Source pages carry no `assets`, so every request repeats the first;
      against a server that answers a request the same way each time, the
      source addresses are the first page's alone, however many pages the
      total asks for. */
  lemma SourceIpsFirstPageOnly(c: Client, start: int, limit: int, fuel: nat, answer: nat -> Request -> Option<Response>)
    requires forall j: nat, q: Request :: answer(j)(q).Some? ==> answer(j)(q).value.assets.None?
    requires forall j: nat, q: Request :: answer(j)(q) == answer(0)(q)
    ensures var p := Paginate(SourcePages(c, limit, answer), Beyond, start, limit, fuel);
      p.Collected? ==>
        && p.pages != []
        && (forall j :: 0 <= j < |p.pages| ==> Some(p.pages[j]) == answer(0)(SearchForSource(c, limit, "", "")))
        && SourceIps(p.pages) == SourceIps([p.pages[0]])
  {
    var s := SourcePages(c, limit, answer);
    var p := Paginate(s, Beyond, start, limit, fuel);
    RepeatsFirstPage(s, Beyond, start, limit, fuel);
    PaginateAnswers(s, Beyond, start, limit, fuel);
    if p.Collected? {
      CandidatesRepeat(p.pages, p.pages[0]);
    }
  }

  // ---- the superset and the reconciliation ----

  /** `superset`: the source addresses merged with the inventory's, tagged
      3 where an address is in both. */
  function Superset(sourceIps: Dict, inventoryIps: Dict): (s: Dict)
    ensures s.Keys == sourceIps.Keys + inventoryIps.Keys
    ensures forall ip :: ip in sourceIps && ip in inventoryIps ==> s[ip] == 3
    ensures forall ip :: ip in sourceIps && ip !in inventoryIps ==> s[ip] == sourceIps[ip]
    ensures forall ip :: ip !in sourceIps && ip in inventoryIps ==> s[ip] == inventoryIps[ip]
  {
    var merged := MergeTwoDicts(sourceIps, inventoryIps);
    map ip | ip in merged :: if ip in sourceIps && ip in inventoryIps then 3 else merged[ip]
  }

  /** The script's `inventoryips` stays empty, so every superset tag is 2
      and every superset address is a source address: `remove_matches`
      never takes the failing tag-1 or tag-3 path here. It returns the
      cloud addresses that are not sources, reports the sources the cloud
      no longer has as old, and leaves the empty inventory map as it is. */
  lemma ReconcileFromSources(pages: seq<Response>, cloud: Dict, order: seq<string>)
    requires Listing(order, cloud)
    requires SourceIps(pages).Ok?
    ensures var src := SourceIps(pages).value;
      var r := RemoveMatches(Superset(src, map[]), map[], src, cloud, order);
      && r.Ok?
      && r.value.newIps == cloud - src.Keys
      && r.value.oldIps.Keys == src.Keys - cloud.Keys
      && r.value.after.bdIps == map[]
  {
    var src := SourceIps(pages).value;
    SourceIpsSpec(pages);
    var sup := Superset(src, map[]);
    assert sup == src;
    RemoveMatchesAllTwo(sup, map[], src, cloud, order);
  }

  // ---- adding the new addresses ----

  /** The loop over `ips_new` in `order`: one retried `add_ip` per address,
      the k-th address's j-th attempt raising when `raised(k)(j)`. */
  function AddNew(order: seq<string>, raised: nat -> nat -> bool): Run {
    CallAll(order, (k: nat) => Succeeds(raised(k)))
  }

  lemma {:induction false} DistinctSize(order: seq<string>)
    requires forall i, j :: 0 <= i < j < |order| ==> order[i] != order[j]
    ensures |set x | x in order| == |order|
  {
    if order != [] {
      var rest := order[1..];
      assert forall i :: 0 <= i < |rest| ==> rest[i] == order[i + 1];
      DistinctSize(rest);
      assert (set x | x in order) == (set x | x in rest) + {order[0]};
      assert order[0] !in rest;
    }
  }

  /** `addednum`: when every address's add comes back within five tries the
      count is the number of new addresses; otherwise the script exits at
      the first address whose five tries all raised, having counted the
      addresses before it. */
  lemma AddNewSpec(newIps: Dict, order: seq<string>, raised: nat -> nat -> bool)
    requires Listing(order, newIps)
    ensures var r := AddNew(order, raised);
      && (r.Finished? <==> forall k :: 0 <= k < |order| ==> !Exhausted(raised(k)))
      && (r.Finished? ==> r.count == |newIps.Keys|)
      && (r.Exited? ==> exists k :: 0 <= k < |order| && r.count == k && Exhausted(raised(k))
                                    && forall j :: 0 <= j < k ==> !Exhausted(raised(j)))
  {
    var ok := (k: nat) => Succeeds(raised(k));
    CallAllSpec(order, ok);
    forall k: nat
      ensures ok(k) <==> !Exhausted(raised(k))
    {
      SucceedsSpec(raised(k));
    }
    DistinctSize(order);
    assert newIps.Keys == set x | x in order;
  }

  // ---- S3 buckets ----

  /** The bucket loop as written: each bucket's host name is looked up (a
      missing location raises `KeyError`, which nothing catches), the
      retried `add_source` result goes into `success`, whatever `ok(i)`
      says, and the test reads `result`, the value the earlier loops left
      behind. */
  function BucketsAsWritten(buckets: seq<string>, location: nat -> Option<Scalar>, ok: nat -> bool,
                            result: Option<bool>, i: nat, count: nat): Result<Run>
    requires i <= |buckets|
    decreases |buckets| - i
  {
    if i == |buckets| then Ok(Finished(count))
    else
      var url :- S3Host(buckets[i], location(i));
      if result.None? then Ok(Exited(count))
      else BucketsAsWritten(buckets, location, ok, result, i + 1, count + 1)
  }

  /** `result` is never `None` when the bucket loop starts: it was last set
      either by a page search or by an `add_ip`, and a `None` from either
      exits the script. So the count is the number of buckets whatever
      `add_source` did. */
  lemma {:induction false} BucketsAsWrittenCountsAll(buckets: seq<string>, location: nat -> Option<Scalar>, ok: nat -> bool,
                                                    result: Option<bool>, i: nat, count: nat)
    requires i <= |buckets| && result.Some?
    requires forall k :: i <= k < |buckets| ==> location(k).Some?
    ensures BucketsAsWritten(buckets, location, ok, result, i, count) == Ok(Finished(count + |buckets| - i))
    decreases |buckets| - i
  {
    if i < |buckets| {
      BucketsAsWrittenCountsAll(buckets, location, ok, result, i + 1, count + 1);
    }
  }

  /** One bucket whose five `add_source` tries all raise is still counted
      as added, and the script does not exit. */
  lemma FailedBucketCounted()
    ensures BucketsAsWritten(["b"], (k: nat) => Some(Str("eu-west-1")), (k: nat) => false, Some(true), 0, 0) == Ok(Finished(1))
  {
    BucketsAsWrittenCountsAll(["b"], (k: nat) => Some(Str("eu-west-1")), (k: nat) => false, Some(true), 0, 0);
  }

  /** The bucket loop testing `success`, as the add loop before it does. */
  function Buckets(buckets: seq<string>, location: nat -> Option<Scalar>, ok: nat -> bool, i: nat, count: nat): Result<Run>
    requires i <= |buckets|
    decreases |buckets| - i
  {
    if i == |buckets| then Ok(Finished(count))
    else
      var url :- S3Host(buckets[i], location(i));
      if !ok(i) then Ok(Exited(count))
      else Buckets(buckets, location, ok, i + 1, count + 1)
  }

  lemma {:induction false} BucketsFrom(buckets: seq<string>, location: nat -> Option<Scalar>, ok: nat -> bool, i: nat)
    requires i <= |buckets|
    requires forall k :: i <= k < |buckets| ==> location(k).Some?
    ensures Buckets(buckets, location, ok, i, i) == Ok(CallFrom(buckets, (b: string) => true, ok, i, i))
    decreases |buckets| - i
  {
    if i < |buckets| {
      BucketsFrom(buckets, location, ok, i + 1);
    }
  }

  /** With every location known, the corrected loop is the counting loop:
      it counts every bucket when every `add_source` comes back, and
      otherwise exits at the first bucket whose tries are exhausted, having
      counted the ones before it. */
  lemma BucketsSpec(buckets: seq<string>, location: nat -> Option<Scalar>, ok: nat -> bool)
    requires forall k :: 0 <= k < |buckets| ==> location(k).Some?
    ensures Buckets(buckets, location, ok, 0, 0) == Ok(CallAll(buckets, ok))
    ensures var r := CallAll(buckets, ok);
      && (r.Finished? <==> forall k :: 0 <= k < |buckets| ==> ok(k))
      && (r.Finished? ==> r.count == |buckets|)
      && (r.Exited? ==> exists k :: 0 <= k < |buckets| && !ok(k) && r.count == k && forall j :: 0 <= j < k ==> ok(j))
  {
    BucketsFrom(buckets, location, ok, 0);
    CallAllSpec(buckets, ok);
  }

  /** The corrected loop exits where the one as written counts on. */
  lemma FailedBucketExits()
    ensures Buckets(["b"], (k: nat) => Some(Str("eu-west-1")), (k: nat) => false, 0, 0) == Ok(Exited(0))
  {
  }
}
