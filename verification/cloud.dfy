/** bitdiscovery/cloud.py: the reconciliation `remove_matches` performs
    between the cloud's addresses and what the inventory already holds,
    the parsers for the captured `gcloud` and `az` listings, the S3 bucket
    host name, and `get_provider`. The CLIs and HTTP fetches themselves
    are not modelled; their output is an input. */
module Cloud {
  import opened Py
  import opened Text
  import opened Json

  /** A `Dict[str, int]`. Key order is not modelled: every operation here
      gives the same contents whatever order the keys are visited in. */
  type Dict = map<string, int>

  // ---- `remove_matches` ----

  /** The four dictionaries the function mutates in place. */
  datatype Maps = Maps(superset: Dict, bdIps: Dict, bdSources: Dict, cloud: Dict)

  /** One iteration for `ip`, as written: a tag of 1 or 3 deletes the key
      from `superset` on line 15, so line 18 reads a missing key. Every
      `del` of a missing key raises `KeyError`. */
  function Step(st: Maps, ip: string): Result<Maps> {
    if ip !in st.superset then Ok(st)
    else
      var st1 :-
        if st.superset[ip] == 1 || st.superset[ip] == 3 then
          if ip !in st.bdIps || ip !in st.cloud then Raise(KeyError)
          else Ok(Maps(st.superset - {ip}, st.bdIps - {ip}, st.bdSources, st.cloud - {ip}))
        else Ok(st);
      if ip !in st1.superset then Raise(KeyError)
      else if st1.superset[ip] == 2 || st1.superset[ip] == 3 then
        if ip !in st1.bdSources || ip !in st1.cloud then Raise(KeyError)
        else Ok(Maps(st1.superset - {ip}, st1.bdIps, st1.bdSources - {ip}, st1.cloud - {ip}))
      else Ok(st1)
  }

  /** The loop over a snapshot of the cloud map's keys, in `order`. */
  function Sweep(st: Maps, order: seq<string>): Result<Maps>
    decreases |order|
  {
    if order == [] then Ok(st)
    else
      var next :- Step(st, order[0]);
      Sweep(next, order[1..])
  }

  /** Lines 23-26: every address left in `superset` that the cloud map no
      longer holds, valued 1. */
  function OldIps(superset: Dict, cloud: Dict): (stale: Dict)
    ensures stale.Keys == superset.Keys - cloud.Keys
    ensures forall ip :: ip in stale ==> stale[ip] == 1
  {
    map ip | ip in superset && ip !in cloud :: 1
  }

  /** What `remove_matches` returns, and the state it leaves behind. */
  datatype Outcome = Outcome(newIps: Dict, oldIps: Dict, after: Maps)

  /** A listing of the keys of a map, each once: the snapshot `.copy().items()` iterates. */
  ghost predicate Listing(order: seq<string>, d: Dict) {
    && (forall i, j :: 0 <= i < j < |order| ==> order[i] != order[j])
    && (forall ip :: ip in d <==> ip in order)
  }

  function RemoveMatches(superset: Dict, bdIps: Dict, bdSources: Dict, cloud: Dict, order: seq<string>): Result<Outcome>
    requires Listing(order, cloud)
  {
    var st :- Sweep(Maps(superset, bdIps, bdSources, cloud), order);
    Ok(Outcome(st.cloud, OldIps(st.superset, st.cloud), st))
  }

  /** A cloud address the loop cannot get past: tagged 1 or 3, or tagged 2
      without a source entry. */
  predicate Blocks(st: Maps, ip: string) {
    ip in st.superset
    && (st.superset[ip] == 1 || st.superset[ip] == 3 || (st.superset[ip] == 2 && ip !in st.bdSources))
  }

  /** The addresses of `order` tagged 2 in `superset`. */
  function TaggedTwo(superset: Dict, order: seq<string>): set<string> {
    set ip | ip in order && ip in superset && superset[ip] == 2
  }

  /** One step touches only the key it visits. */
  lemma StepSpec(st: Maps, ip: string)
    requires ip in st.cloud
    ensures Step(st, ip).Raise? <==> Blocks(st, ip)
    ensures Step(st, ip).Raise? ==> Step(st, ip).exc == KeyError
    ensures Step(st, ip).Ok? && ip in st.superset && st.superset[ip] == 2 ==>
              Step(st, ip).value == Maps(st.superset - {ip}, st.bdIps, st.bdSources - {ip}, st.cloud - {ip})
    ensures Step(st, ip).Ok? && !(ip in st.superset && st.superset[ip] == 2) ==> Step(st, ip).value == st
  {
  }

  /** The loop fails, with `KeyError`, exactly when some listed address
      blocks it; otherwise it removes the addresses tagged 2 from
      `superset`, the sources and the cloud map, and leaves the inventory
      addresses alone. */
  lemma {:induction false} SweepSpec(st: Maps, order: seq<string>)
    requires forall i, j :: 0 <= i < j < |order| ==> order[i] != order[j]
    requires forall i :: 0 <= i < |order| ==> order[i] in st.cloud
    ensures Sweep(st, order).Raise? <==> exists i :: 0 <= i < |order| && Blocks(st, order[i])
    ensures Sweep(st, order).Raise? ==> Sweep(st, order).exc == KeyError
    ensures Sweep(st, order).Ok? ==>
              var t := TaggedTwo(st.superset, order);
              Sweep(st, order).value == Maps(st.superset - t, st.bdIps, st.bdSources - t, st.cloud - t)
    decreases |order|
  {
    if order != [] {
      var ip := order[0];
      var rest := order[1..];
      StepSpec(st, ip);
      assert forall i :: 0 <= i < |rest| ==> rest[i] == order[i + 1];
      if Blocks(st, ip) {
        assert Blocks(st, order[0]);
      } else {
        var next := Step(st, ip).value;
        assert Sweep(st, order) == Sweep(next, rest);
        forall i | 0 <= i < |rest|
          ensures rest[i] in next.cloud
          ensures Blocks(next, rest[i]) <==> Blocks(st, rest[i])
        {
          assert rest[i] != ip;
        }
        SweepSpec(next, rest);
        BlocksShift(st, next, order);
        if Sweep(st, order).Ok? {
          assert ip !in rest && order == [ip] + rest;
          SweepOkStep(st, ip, rest);
        }
      }
    }
  }

  /** Some address of `order` is missing a map before the first step
      exactly when some later one is after it. */
  lemma MissingShift(st: Maps, next: Maps, order: seq<string>)
    requires order != [] && !Missing(st, order[0])
    requires forall x :: x in order[1..] ==> (Missing(next, x) <==> Missing(st, x))
    ensures (exists i :: 0 <= i < |order| && Missing(st, order[i]))
        <==> (exists i :: 0 <= i < |order[1..]| && Missing(next, order[1..][i]))
  {
    var rest := order[1..];
    if exists i :: 0 <= i < |order| && Missing(st, order[i]) {
      var i :| 0 <= i < |order| && Missing(st, order[i]);
      assert rest[i - 1] == order[i];
    }
    if exists i :: 0 <= i < |rest| && Missing(next, rest[i]) {
      var i :| 0 <= i < |rest| && Missing(next, rest[i]);
      assert order[i + 1] == rest[i];
    }
  }

  /** Some address of `order` blocks the loop before the first step
      exactly when some later one does after it. */
  lemma BlocksShift(st: Maps, next: Maps, order: seq<string>)
    requires order != [] && !Blocks(st, order[0])
    requires forall i :: 0 <= i < |order[1..]| ==> (Blocks(next, order[1..][i]) <==> Blocks(st, order[1..][i]))
    ensures (exists i :: 0 <= i < |order| && Blocks(st, order[i]))
        <==> (exists i :: 0 <= i < |order[1..]| && Blocks(next, order[1..][i]))
  {
    var rest := order[1..];
    if exists i :: 0 <= i < |order| && Blocks(st, order[i]) {
      var i :| 0 <= i < |order| && Blocks(st, order[i]);
      assert rest[i - 1] == order[i];
    }
    if exists i :: 0 <= i < |rest| && Blocks(next, rest[i]) {
      var i :| 0 <= i < |rest| && Blocks(next, rest[i]);
      assert order[i + 1] == rest[i];
    }
  }

  /** The maps a successful sweep leaves, one address further back. */
  lemma SweepOkStep(st: Maps, ip: string, rest: seq<string>)
    requires ip in st.cloud && ip !in rest && !Blocks(st, ip)
    ensures var next := Step(st, ip).value;
      var t, t' := TaggedTwo(st.superset, [ip] + rest), TaggedTwo(next.superset, rest);
      Maps(next.superset - t', next.bdIps, next.bdSources - t', next.cloud - t')
        == Maps(st.superset - t, st.bdIps, st.bdSources - t, st.cloud - t)
  {
    StepSpec(st, ip);
    var next := Step(st, ip).value;
    var t, t' := TaggedTwo(st.superset, [ip] + rest), TaggedTwo(next.superset, rest);
    assert t' == t - {ip};
    if ip in st.superset && st.superset[ip] == 2 {
      assert t == t' + {ip};
      RemoveInTwo(st.superset, ip, t');
      RemoveInTwo(st.bdSources, ip, t');
      RemoveInTwo(st.cloud, ip, t');
    } else {
      assert t == t';
    }
  }

  /** `remove_matches`: it raises `KeyError` exactly when some cloud
      address is tagged 1 or 3, or tagged 2 without a source entry.
      Otherwise the addresses tagged 2 leave `superset`, the sources and the
      returned map; every other cloud address stays with its value; the
      inventory addresses are untouched; and the old addresses are what
      remains of `superset` outside the returned map, which makes them
      disjoint from the new ones. */
  lemma RemoveMatchesSpec(superset: Dict, bdIps: Dict, bdSources: Dict, cloud: Dict, order: seq<string>)
    requires Listing(order, cloud)
    ensures RemoveMatches(superset, bdIps, bdSources, cloud, order).Raise? <==> exists ip :: ip in cloud && Blocks(Maps(superset, bdIps, bdSources, cloud), ip)
    ensures RemoveMatches(superset, bdIps, bdSources, cloud, order).Raise? ==> RemoveMatches(superset, bdIps, bdSources, cloud, order).exc == KeyError
    ensures RemoveMatches(superset, bdIps, bdSources, cloud, order).Ok? ==>
              var o := RemoveMatches(superset, bdIps, bdSources, cloud, order).value;
              var t := set ip | ip in cloud && ip in superset && superset[ip] == 2;
              && o.newIps == cloud - t
              && (forall ip :: ip in cloud && ip !in t ==> ip in o.newIps && o.newIps[ip] == cloud[ip])
              && o.after == Maps(superset - t, bdIps, bdSources - t, cloud - t)
              && o.oldIps.Keys == (superset.Keys - t) - cloud.Keys
              && o.oldIps.Keys !! o.newIps.Keys
  {
    var st := Maps(superset, bdIps, bdSources, cloud);
    SweepSpec(st, order);
    if Sweep(st, order).Raise? {
      var i :| 0 <= i < |order| && Blocks(st, order[i]);
      assert order[i] in cloud;
    }
    if exists ip :: ip in cloud && Blocks(st, ip) {
      var ip :| ip in cloud && Blocks(st, ip);
      assert ip in order;
      var i :| 0 <= i < |order| && order[i] == ip;
    }
    assert TaggedTwo(superset, order) == set ip | ip in cloud && ip in superset && superset[ip] == 2;
  }

  /** With every tag 2 and every tagged address among the sources, the new
      addresses are the cloud's minus the superset's, the old ones the
      superset's minus the cloud's, the sources lose the addresses in both,
      and the inventory addresses are untouched. */
  lemma RemoveMatchesAllTwo(superset: Dict, bdIps: Dict, bdSources: Dict, cloud: Dict, order: seq<string>)
    requires Listing(order, cloud)
    requires forall ip :: ip in superset ==> superset[ip] == 2 && ip in bdSources
    ensures RemoveMatches(superset, bdIps, bdSources, cloud, order).Ok?
    ensures var o := RemoveMatches(superset, bdIps, bdSources, cloud, order).value;
      && o.newIps == cloud - superset.Keys
      && o.oldIps == (map ip | ip in superset && ip !in cloud :: 1)
      && o.after.bdSources == bdSources - (superset.Keys * cloud.Keys)
      && o.after.bdIps == bdIps
  {
    RemoveMatchesSpec(superset, bdIps, bdSources, cloud, order);
    var t := set ip | ip in cloud && ip in superset && superset[ip] == 2;
    assert t == superset.Keys * cloud.Keys;
  }

  /** The tag-1 path of the code as written: an address in every map raises
      where removing it from `superset`, the inventory and the cloud map was
      meant. */
  lemma TagOneRaises()
    ensures RemoveMatches(map["a" := 1], map["a" := 1], map[], map["a" := 1], ["a"]) == Raise(KeyError)
  {
    var st := Maps(map["a" := 1], map["a" := 1], map[], map["a" := 1]);
    assert Blocks(st, "a");
    StepSpec(st, "a");
  }

  // ---- the loop as evidently intended ----

  /** One iteration reading the tag once: 1 removes the address from the
      inventory addresses, 2 from the sources, 3 from both; `superset` and
      the cloud map lose it in every case. */
  function StepIntended(st: Maps, ip: string): Result<Maps> {
    if ip !in st.superset then Ok(st)
    else
      var tag := st.superset[ip];
      if tag != 1 && tag != 2 && tag != 3 then Ok(st)
      else if (tag == 1 || tag == 3) && ip !in st.bdIps then Raise(KeyError)
      else if (tag == 2 || tag == 3) && ip !in st.bdSources then Raise(KeyError)
      else if ip !in st.cloud then Raise(KeyError)
      else
        Ok(Maps(st.superset - {ip},
                if tag == 1 || tag == 3 then st.bdIps - {ip} else st.bdIps,
                if tag == 2 || tag == 3 then st.bdSources - {ip} else st.bdSources,
                st.cloud - {ip}))
  }

  function SweepIntended(st: Maps, order: seq<string>): Result<Maps>
    decreases |order|
  {
    if order == [] then Ok(st)
    else
      var next :- StepIntended(st, order[0]);
      SweepIntended(next, order[1..])
  }

  function RemoveMatchesIntended(superset: Dict, bdIps: Dict, bdSources: Dict, cloud: Dict, order: seq<string>): Result<Outcome>
    requires Listing(order, cloud)
  {
    var st :- SweepIntended(Maps(superset, bdIps, bdSources, cloud), order);
    Ok(Outcome(st.cloud, OldIps(st.superset, st.cloud), st))
  }

  /** An address the intended loop removes, and the maps it needs there. */
  predicate Matched(st: Maps, ip: string) {
    ip in st.superset && (st.superset[ip] == 1 || st.superset[ip] == 2 || st.superset[ip] == 3)
  }

  predicate Missing(st: Maps, ip: string) {
    && Matched(st, ip)
    && (((st.superset[ip] == 1 || st.superset[ip] == 3) && ip !in st.bdIps)
        || ((st.superset[ip] == 2 || st.superset[ip] == 3) && ip !in st.bdSources))
  }

  function MatchedIn(st: Maps, order: seq<string>): set<string> {
    set ip | ip in order && Matched(st, ip)
  }

  function WithTag(st: Maps, order: seq<string>, a: int, b: int): set<string> {
    set ip | ip in order && ip in st.superset && (st.superset[ip] == a || st.superset[ip] == b)
  }

  /** What the intended loop leaves after visiting `order` from `st`. */
  function IntendedResult(st: Maps, order: seq<string>): Maps {
    Maps(st.superset - MatchedIn(st, order), st.bdIps - WithTag(st, order, 1, 3),
         st.bdSources - WithTag(st, order, 2, 3), st.cloud - MatchedIn(st, order))
  }

  /** One intended step, and how it leaves the other addresses alone. */
  lemma StepIntendedSpec(st: Maps, ip: string, rest: seq<string>)
    requires ip in st.cloud && ip !in rest
    ensures StepIntended(st, ip).Raise? <==> Missing(st, ip)
    ensures StepIntended(st, ip).Ok? ==>
              var next := StepIntended(st, ip).value;
              && (forall x :: x in rest && x in st.cloud ==> x in next.cloud)
              && (forall x :: x in rest ==> (Missing(next, x) <==> Missing(st, x)))
              && IntendedResult(next, rest) == IntendedResult(st, [ip] + rest)
  {
    if StepIntended(st, ip).Ok? {
      var next := StepIntended(st, ip).value;
      SweepIntendedSets(st, next, ip, rest);
      forall x | x in rest
        ensures Missing(next, x) <==> Missing(st, x)
      {
        assert x != ip;
      }
    }
  }

  lemma SweepIntendedSets(st: Maps, next: Maps, ip: string, rest: seq<string>)
    requires ip in st.cloud && ip !in rest
    requires StepIntended(st, ip) == Ok(next)
    ensures IntendedResult(next, rest) == IntendedResult(st, [ip] + rest)
  {
    var order := [ip] + rest;
    if Matched(st, ip) {
      MatchedSets(st, next, ip, rest);
    } else {
      assert next == st;
      assert MatchedIn(st, order) == MatchedIn(next, rest);
      assert WithTag(st, order, 1, 3) == WithTag(next, rest, 1, 3);
      assert WithTag(st, order, 2, 3) == WithTag(next, rest, 2, 3);
    }
  }

  lemma MatchedSets(st: Maps, next: Maps, ip: string, rest: seq<string>)
    requires ip in st.cloud && ip !in rest && Matched(st, ip)
    requires StepIntended(st, ip) == Ok(next)
    ensures IntendedResult(next, rest) == IntendedResult(st, [ip] + rest)
  {
    var order := [ip] + rest;
    var tag := st.superset[ip];
    assert MatchedIn(st, order) == MatchedIn(next, rest) + {ip};
    var a, a' := WithTag(st, order, 1, 3), WithTag(next, rest, 1, 3);
    var b, b' := WithTag(st, order, 2, 3), WithTag(next, rest, 2, 3);
    assert a == if tag == 1 || tag == 3 then a' + {ip} else a';
    assert b == if tag == 2 || tag == 3 then b' + {ip} else b';
    RemoveInTwo(st.superset, ip, MatchedIn(next, rest));
    RemoveInTwo(st.cloud, ip, MatchedIn(next, rest));
    if tag == 1 || tag == 3 {
      RemoveInTwo(st.bdIps, ip, a');
    }
    if tag == 2 || tag == 3 {
      RemoveInTwo(st.bdSources, ip, b');
    }
  }

  lemma RemoveInTwo(d: Dict, x: string, s: set<string>)
    ensures (d - {x}) - s == d - (s + {x})
  {
  }

  /** The intended loop fails only where a map lacks an address it must
      delete; otherwise every matched address leaves `superset` and the
      cloud map, tags 1 and 3 leave the inventory addresses, tags 2 and 3
      leave the sources. */
  lemma {:induction false} SweepIntendedSpec(st: Maps, order: seq<string>)
    requires forall i, j :: 0 <= i < j < |order| ==> order[i] != order[j]
    requires forall i :: 0 <= i < |order| ==> order[i] in st.cloud
    ensures SweepIntended(st, order).Raise? <==> exists i :: 0 <= i < |order| && Missing(st, order[i])
    ensures SweepIntended(st, order).Ok? ==> SweepIntended(st, order).value == IntendedResult(st, order)
    decreases |order|
  {
    if order == [] {
      assert IntendedResult(st, order) == st;
    } else {
      var ip := order[0];
      var rest := order[1..];
      assert forall i :: 0 <= i < |rest| ==> rest[i] == order[i + 1];
      assert ip !in rest;
      StepIntendedSpec(st, ip, rest);
      if Missing(st, ip) {
        assert Missing(st, order[0]);
      } else {
        var next := StepIntended(st, ip).value;
        assert SweepIntended(st, order) == SweepIntended(next, rest);
        assert IntendedResult(st, order) == IntendedResult(st, [ip] + rest) by {
          assert order == [ip] + rest;
        }
        assert forall i :: 0 <= i < |rest| ==> rest[i] in next.cloud;
        assert forall i, j :: 0 <= i < j < |rest| ==> rest[i] != rest[j];
        SweepIntendedSpec(next, rest);
        MissingShift(st, next, order);
      }
    }
  }

  /** The intended removal: no `KeyError` when the inventory holds every
      address tagged 1 or 3 and the sources every one tagged 2 or 3, and
      then every matched address is gone from `superset` and the result. */
  lemma RemoveMatchesIntendedSpec(superset: Dict, bdIps: Dict, bdSources: Dict, cloud: Dict, order: seq<string>)
    requires Listing(order, cloud)
    requires forall ip :: ip in superset && (superset[ip] == 1 || superset[ip] == 3) ==> ip in bdIps
    requires forall ip :: ip in superset && (superset[ip] == 2 || superset[ip] == 3) ==> ip in bdSources
    ensures RemoveMatchesIntended(superset, bdIps, bdSources, cloud, order).Ok?
    ensures var o := RemoveMatchesIntended(superset, bdIps, bdSources, cloud, order).value;
      forall ip :: ip in cloud && ip in superset && 1 <= superset[ip] <= 3 ==>
        ip !in o.newIps && ip !in o.after.superset && ip !in o.oldIps
  {
    var st := Maps(superset, bdIps, bdSources, cloud);
    SweepIntendedSpec(st, order);
  }

  /** When every tag is 2 the two loops agree. */
  lemma {:induction false} IntendedAgreesOnTagTwo(st: Maps, order: seq<string>)
    requires forall ip :: ip in st.superset ==> st.superset[ip] == 2
    ensures SweepIntended(st, order) == Sweep(st, order)
    decreases |order|
  {
    if order != [] {
      var ip := order[0];
      if Step(st, ip).Ok? {
        IntendedAgreesOnTagTwo(Step(st, ip).value, order[1..]);
      }
    }
  }

  // ---- CLI listings ----

  /** The line boundaries of `str.splitlines()`. */
  predicate IsLineBreak(c: char) {
    c == '\n' || c == '\r' || c == '\U{0B}' || c == '\U{0C}' || c == '\U{1C}' || c == '\U{1D}' || c == '\U{1E}'
    || c == '\U{85}' || c == '\U{2028}' || c == '\U{2029}'
  }

  /** The text between line boundaries, one piece per boundary plus one. A
      `\r\n` pair gives an extra empty piece, which the callers drop. */
  function Lines(s: string): (ls: seq<string>)
    ensures ls != []
  {
    if s == [] then [""] else Prepend(s[0], Lines(s[1..]))
  }

  /** The lines of `[c] + t` from the lines of `t`: a boundary starts an
      empty first line, any other character joins the first line. */
  function Prepend(c: char, rest: seq<string>): (ls: seq<string>)
    requires rest != []
    ensures ls != []
  {
    if IsLineBreak(c) then [""] + rest else [[c] + rest[0]] + rest[1..]
  }

  lemma PrependAppend(c: char, xs: seq<string>, ys: seq<string>)
    requires xs != []
    ensures Prepend(c, xs + ys) == Prepend(c, xs) + ys
  {
    if !IsLineBreak(c) {
      assert (xs + ys)[1..] == xs[1..] + ys;
    }
  }

  /** `[y for y in (x.strip() for x in text.splitlines()) if y]` */
  function StrippedLines(ls: seq<string>): (out: seq<string>)
    ensures |out| <= |ls|
    ensures forall k :: 0 <= k < |out| ==> out[k] != []
  {
    FlatMap(StrippedLine, ls)
  }

  /** One line stripped, or nothing when it is blank. */
  function StrippedLine(l: string): (out: seq<string>)
    ensures |out| <= 1
    ensures forall k :: 0 <= k < |out| ==> out[k] != []
  {
    var t := Strip(l);
    if t == [] then [] else [t]
  }

  /** The pieces `f` makes of each element, in order. */
  function FlatMap(f: string -> seq<string>, ls: seq<string>): (out: seq<string>)
    requires forall l :: |f(l)| <= 1 && (forall k :: 0 <= k < |f(l)| ==> f(l)[k] != [])
    ensures |out| <= |ls|
    ensures forall k :: 0 <= k < |out| ==> out[k] != []
  {
    if ls == [] then [] else f(ls[0]) + FlatMap(f, ls[1..])
  }

  function ListingLines(text: string): seq<string> {
    StrippedLines(Lines(text))
  }

  /** A boundary splits the lines into those before it and those after. */
  lemma {:induction false} LinesGlued(a: string, c: char, b: string)
    requires IsLineBreak(c)
    ensures Lines(a + [c] + b) == Lines(a) + Lines(b)
  {
    var s := a + [c] + b;
    if a == [] {
      assert s == [c] + b && s[1..] == b;
    } else {
      LinesGlued(a[1..], c, b);
      assert s[1..] == a[1..] + [c] + b && s[0] == a[0];
      PrependAppend(a[0], Lines(a[1..]), Lines(b));
    }
  }

  lemma {:induction false} FlatMapAppend(f: string -> seq<string>, xs: seq<string>, ys: seq<string>)
    requires forall l :: |f(l)| <= 1 && (forall k :: 0 <= k < |f(l)| ==> f(l)[k] != [])
    ensures FlatMap(f, xs + ys) == FlatMap(f, xs) + FlatMap(f, ys)
  {
    if xs != [] {
      FlatMapAppend(f, xs[1..], ys);
      assert (xs + ys)[1..] == xs[1..] + ys;
      assert (xs + ys)[0] == xs[0];
    } else {
      assert xs + ys == ys;
    }
  }

  /** Listings concatenate: the lines of two texts joined at a boundary are
      the lines of each. */
  lemma ListingLinesGlued(a: string, c: char, b: string)
    requires IsLineBreak(c)
    ensures ListingLines(a + [c] + b) == ListingLines(a) + ListingLines(b)
  {
    LinesGlued(a, c, b);
    FlatMapAppend(StrippedLine, Lines(a), Lines(b));
  }

  function AsDict(keys: seq<string>): (d: Dict)
    ensures d.Keys == set k | k in keys
    ensures forall k :: k in d ==> d[k] == 1
  {
    map k | k in keys :: 1
  }

  /** The address column of one `gcloud compute instances list` line:
      characters 68 to 82, trailing space removed. */
  function GcpAddress(line: string): (ip: string)
    ensures |ip| <= 15
    ensures ip == [] || !IsSpace(ip[|ip| - 1])
  {
    RStrip(Slice(line, 68, 83))
  }

  /** `GoogleCloudProvider.get_instance_ips` on the captured listing: the
      first non-blank line is the header and is skipped. */
  function GcpInstanceIps(listing: string): Dict {
    var lines := ListingLines(listing);
    if lines == [] then map[] else AsDict(MapLines(GcpAddress, lines[1..]))
  }

  /** `f` applied to every line. */
  function MapLines(f: string -> string, ls: seq<string>): (out: seq<string>)
    ensures |out| == |ls|
    ensures forall k :: 0 <= k < |ls| ==> out[k] == f(ls[k])
  {
    seq(|ls|, k requires 0 <= k < |ls| => f(ls[k]))
  }

  /** An address is among the keys exactly when some line maps to it. */
  lemma FoundAmong(f: string -> string, ls: seq<string>, ip: string)
    ensures ip in AsDict(MapLines(f, ls)) <==> exists k :: 0 <= k < |ls| && f(ls[k]) == ip
  {
    var col := MapLines(f, ls);
    if ip in col {
      var k :| 0 <= k < |col| && col[k] == ip;
      assert f(ls[k]) == ip;
    }
    if exists k :: 0 <= k < |ls| && f(ls[k]) == ip {
      var k :| 0 <= k < |ls| && f(ls[k]) == ip;
      assert col[k] == ip;
    }
  }

  /** An address is found exactly when some line after the header carries
      it in the address column, and the header never counts as a line. */
  lemma GcpInstanceIpsSpec(listing: string, ip: string)
    ensures ip in GcpInstanceIps(listing) <==>
              exists k :: 1 <= k < |ListingLines(listing)| && GcpAddress(ListingLines(listing)[k]) == ip
    ensures ip in GcpInstanceIps(listing) ==> GcpInstanceIps(listing)[ip] == 1 && |ip| <= 15
  {
    var lines := ListingLines(listing);
    if lines != [] {
      var rest := lines[1..];
      FoundAmong(GcpAddress, rest, ip);
      if exists k :: 1 <= k < |lines| && GcpAddress(lines[k]) == ip {
        var k :| 1 <= k < |lines| && GcpAddress(lines[k]) == ip;
        assert rest[k - 1] == lines[k];
      }
      if exists k :: 0 <= k < |rest| && GcpAddress(rest[k]) == ip {
        var k :| 0 <= k < |rest| && GcpAddress(rest[k]) == ip;
        assert rest[k] == lines[k + 1];
      }
    }
  }

  /** The address `az vm list-ip-addresses` puts on an `ipAddress` line:
      its second word, which `rstrip` leaves as it is. */
  function AzureAddress(line: string): Result<string> {
    var ws := Words(line);
    if |ws| < 2 then Raise(IndexError) else Ok(RStrip(ws[1]))
  }

  predicate IsAddressLine(line: string) {
    Contains(line, "ipAddress")
  }

  /** The loop over the lines, in order. */
  function AzureAddresses(lines: seq<string>): Result<seq<string>> {
    if lines == [] then Ok([])
    else
      var rest :- AzureAddresses(lines[1..]);
      if IsAddressLine(lines[0]) then
        var ip :- AzureAddress(lines[0]);
        Ok([ip] + rest)
      else Ok(rest)
  }

  /** `AzureProvider.get_instance_ips` on the captured listing. */
  function AzureInstanceIps(listing: string): Result<Dict> {
    var ips :- AzureAddresses(ListingLines(listing));
    Ok(AsDict(ips))
  }

  lemma RStripWord(w: string)
    requires IsWord(w)
    ensures RStrip(w) == w
  {
  }

  /** The listing parses exactly when every `ipAddress` line has at least
      two words, else `IndexError`; the addresses are then the second words
      of those lines, in order. */
  lemma {:induction false} AzureAddressesSpec(lines: seq<string>)
    ensures AzureAddresses(lines).Raise? <==> exists k :: 0 <= k < |lines| && IsAddressLine(lines[k]) && |Words(lines[k])| < 2
    ensures AzureAddresses(lines).Raise? ==> AzureAddresses(lines).exc == IndexError
    ensures AzureAddresses(lines).Ok? ==>
              AzureAddresses(lines).value == SecondWords(lines)
  {
    if lines != [] {
      AzureAddressesSpec(lines[1..]);
      assert forall k :: 0 < k < |lines| ==> lines[k] == lines[1..][k - 1];
      if AzureAddresses(lines[1..]).Ok? && IsAddressLine(lines[0]) && |Words(lines[0])| >= 2 {
        RStripWord(Words(lines[0])[1]);
      }
      if exists k :: 0 <= k < |lines| && IsAddressLine(lines[k]) && |Words(lines[k])| < 2 {
        var k :| 0 <= k < |lines| && IsAddressLine(lines[k]) && |Words(lines[k])| < 2;
        if k > 0 {
          assert IsAddressLine(lines[1..][k - 1]) && |Words(lines[1..][k - 1])| < 2;
        }
      }
    }
  }

  /** The second word of every `ipAddress` line with at least two words. */
  function SecondWords(lines: seq<string>): (ws: seq<string>)
    ensures forall k :: 0 <= k < |ws| ==> IsWord(ws[k])
  {
    if lines == [] then []
    else if IsAddressLine(lines[0]) && |Words(lines[0])| >= 2 then
      var rest := SecondWords(lines[1..]);
      ConsWords(Words(lines[0])[1], rest);
      [Words(lines[0])[1]] + rest
    else SecondWords(lines[1..])
  }

  // ---- S3 and providers ----

  /** `find_s3_region`: the bucket, `s3`, the location constraint as `str`
      renders it, `amazonaws` and `com`, joined with dots; a response
      without the key raises `KeyError`. */
  function S3Host(bucket: string, location: Option<Scalar>): Result<string> {
    if location.None? then Raise(KeyError)
    else Ok(Join([bucket, "s3", StrOf(location.value), "amazonaws", "com"], '.'))
  }

  /** `find_s3_region` for any bucket name, dotted ones included: the host
      is `bucket.s3.<str(location)>.amazonaws.com`, and a bucket without a
      `LocationConstraint` raises `KeyError`. */
  lemma S3HostText(bucket: string, location: Option<Scalar>)
    ensures S3Host(bucket, location) == Raise(KeyError) <==> location.None?
    ensures location.Some? ==>
      S3Host(bucket, location) == Ok(bucket + ".s3." + StrOf(location.value) + ".amazonaws.com")
  {
    if location.Some? {
      var loc := StrOf(location.value);
      Join5('.', bucket, "s3", loc, "amazonaws", "com");
      assert bucket + ['.'] + "s3" + ['.'] + loc + ['.'] + "amazonaws" + ['.'] + "com"
          == bucket + ".s3." + loc + ".amazonaws.com";
    }
  }

  /** A dot-free bucket and region come back out of the host name; a null
      constraint, as AWS reports for us-east-1, renders as `None`. */
  lemma S3HostParts(bucket: string, region: string)
    requires '.' !in bucket && '.' !in region
    ensures S3Host(bucket, Some(Str(region))).Ok?
    ensures Split(S3Host(bucket, Some(Str(region))).value, '.') == [bucket, "s3", region, "amazonaws", "com"]
    ensures S3Host(bucket, Some(Null)) == Ok(Join([bucket, "s3", "None", "amazonaws", "com"], '.'))
  {
    SplitJoin([bucket, "s3", region, "amazonaws", "com"], '.');
  }

  datatype Provider = Aws | Google | Azure

  /** The `name` each provider's constructor sets. */
  function ProviderName(p: Provider): string {
    match p
    case Aws => "AWS"
    case Google => "Google Cloud"
    case Azure => "Azure"
  }

  /** The command-line argument that selects a provider. */
  function ProviderArg(p: Provider): string {
    match p
    case Aws => "amazon-ec2"
    case Google => "google-cloud"
    case Azure => "azure"
  }

  /** `get_provider`; any other string falls off the end: `None`. */
  function GetProvider(arg: string): (p: Option<Provider>)
    ensures p.Some? <==> arg in {"amazon-ec2", "google-cloud", "azure"}
    ensures p.Some? ==> ProviderArg(p.value) == arg
  {
    if arg == "amazon-ec2" then Some(Aws)
    else if arg == "google-cloud" then Some(Google)
    else if arg == "azure" then Some(Azure)
    else None
  }

  /** Each provider is selected by its own argument. */
  lemma GetProviderArg(p: Provider)
    ensures GetProvider(ProviderArg(p)) == Some(p)
  {
  }
}
