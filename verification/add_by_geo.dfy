/** add-by-geo.py up to the merge: the `-f KEY=VALUE` argument action, the
    row filter over the location database, the normalisation of a row's
    address range, and the start-ordered collection the ranges are added
    to. The merge itself is `IntervalMerge`, the wait after adding a range
    is `Backoff`. */
module AddByGeo {
  import opened Py
  import opened Text
  import opened Decimal
  import opened IntervalMerge

  // ---- the filter criteria ----

  datatype Criterion = Any | CountryCode | CountryName | Region | City

  /** A member's name, which is also its value. */
  function Name(c: Criterion): string {
    match c
    case Any => "ANY"
    case CountryCode => "COUNTRY_CODE"
    case CountryName => "COUNTRY_NAME"
    case Region => "REGION"
    case City => "CITY"
  }

  /** The list `__int__` looks the value up in. */
  const IndexNames: seq<string> := ["PLACEHOLDER", "ANY", "COUNTRY_CODE", "COUNTRY_NAME", "REGION", "CITY"]

  /** `int(criterion)`: the first position of its value in `IndexNames`,
      which is the CSV column the criterion is compared with. */
  function Column(c: Criterion): (n: nat)
    ensures 1 <= n < |IndexNames| && IndexNames[n] == Name(c)
    ensures forall j :: 0 <= j < n ==> IndexNames[j] != Name(c)
  {
    match c
    case Any => 1
    case CountryCode => 2
    case CountryName => 3
    case Region => 4
    case City => 5
  }

  /** `key in FILTER_CRITERIA._member_names_`, and the member it names. */
  function Named(key: string): (c: Option<Criterion>)
    ensures c.Some? ==> Name(c.value) == key
  {
    if key == "ANY" then Some(Any)
    else if key == "COUNTRY_CODE" then Some(CountryCode)
    else if key == "COUNTRY_NAME" then Some(CountryName)
    else if key == "REGION" then Some(Region)
    else if key == "CITY" then Some(City)
    else None
  }

  /** Every member is found under its own name. */
  lemma NamedName(c: Criterion)
    ensures Named(Name(c)) == Some(c)
  {
  }

  // ---- the filter map: a dict in insertion order ----

  type Filters = seq<(Criterion, string)>

  predicate DistinctKeys(m: Filters) {
    forall i, j :: 0 <= i < j < |m| ==> m[i].0 != m[j].0
  }

  function Lookup(m: Filters, k: Criterion): Option<string> {
    if m == [] then None
    else if m[0].0 == k then Some(m[0].1)
    else Lookup(m[1..], k)
  }

  function Keys(m: Filters): seq<Criterion> {
    if m == [] then [] else [m[0].0] + Keys(m[1..])
  }

  /** `d[k] = v`: an existing key keeps its place, a new one goes last. */
  function Assign(m: Filters, k: Criterion, v: string): Filters {
    if m == [] then [(k, v)]
    else if m[0].0 == k then [(k, v)] + m[1..]
    else [m[0]] + Assign(m[1..], k, v)
  }

  /** An assignment sets its key and leaves the other keys' values alone. */
  lemma {:induction false} AssignLookup(m: Filters, k: Criterion, v: string)
    ensures Lookup(Assign(m, k, v), k) == Some(v)
    ensures forall j :: j != k ==> Lookup(Assign(m, k, v), j) == Lookup(m, j)
  {
    if m != [] && m[0].0 != k {
      AssignLookup(m[1..], k, v);
      assert Assign(m, k, v)[1..] == Assign(m[1..], k, v);
    }
  }

  /** An assignment moves no key: a new key is appended. */
  lemma {:induction false} AssignKeys(m: Filters, k: Criterion, v: string)
    ensures k in Keys(m) ==> Keys(Assign(m, k, v)) == Keys(m)
    ensures k !in Keys(m) ==> Keys(Assign(m, k, v)) == Keys(m) + [k]
  {
    if m != [] {
      var r := Assign(m, k, v);
      if m[0].0 != k {
        AssignKeys(m[1..], k, v);
        assert r[1..] == Assign(m[1..], k, v);
      } else {
        assert r[1..] == m[1..];
      }
    }
  }

  lemma AssignDistinct(m: Filters, k: Criterion, v: string)
    requires DistinctKeys(m)
    ensures DistinctKeys(Assign(m, k, v))
  {
    var r := Assign(m, k, v);
    AssignKeys(m, k, v);
    KeysHold(m);
    KeysHold(r);
    if k in Keys(m) {
      forall i, j | 0 <= i < j < |r|
        ensures r[i].0 != r[j].0
      {
        assert Keys(r)[i] == Keys(m)[i] && Keys(r)[j] == Keys(m)[j];
      }
    } else {
      forall i, j | 0 <= i < j < |r|
        ensures r[i].0 != r[j].0
      {
        assert Keys(r)[i] == (Keys(m) + [k])[i] && Keys(r)[j] == (Keys(m) + [k])[j];
        if j == |m| {
          assert Keys(m)[i] in Keys(m);
        }
      }
    }
  }

  /** A key is among the keys exactly when some entry carries it. */
  lemma {:induction false} KeysHold(m: Filters)
    ensures |Keys(m)| == |m|
    ensures forall i :: 0 <= i < |m| ==> Keys(m)[i] == m[i].0
    ensures forall k :: k in Keys(m) <==> exists i :: 0 <= i < |m| && m[i].0 == k
  {
    if m != [] {
      KeysHold(m[1..]);
      forall k | k in Keys(m)
        ensures exists i :: 0 <= i < |m| && m[i].0 == k
      {
        if k != m[0].0 {
          var i :| 0 <= i < |m[1..]| && m[1..][i].0 == k;
          assert m[i + 1].0 == k;
        }
      }
      forall k | exists i :: 0 <= i < |m| && m[i].0 == k
        ensures k in Keys(m)
      {
        var i :| 0 <= i < |m| && m[i].0 == k;
        if i > 0 {
          assert m[1..][i - 1].0 == k;
        }
      }
    }
  }

  // ---- the `-f` action ----

  /** One `KEY=VALUE` token: exactly two parts around the `=`, else the
      unpacking raises `ValueError`; a key naming no member is ignored. */
  function AddToken(m: Filters, token: string): Result<Filters> {
    var parts := Split(token, '=');
    if |parts| != 2 then Raise(ValueError)
    else if Named(parts[0]).Some? then Ok(Assign(m, Named(parts[0]).value, parts[1]))
    else Ok(m)
  }

  /** The tokens processed in order; the map after the first `i` of them is
      what the loop holds after `i` iterations. */
  function AddTokens(m: Filters, tokens: seq<string>): Result<Filters>
    decreases |tokens|
  {
    if tokens == [] then Ok(m)
    else
      var acc :- AddTokens(m, tokens[..|tokens| - 1]);
      AddToken(acc, tokens[|tokens| - 1])
  }

  /** `filterValue.__call__`: start from the existing map unless it is
      missing or empty, then add the tokens. */
  function FilterAction(existing: Option<Filters>, tokens: seq<string>): Result<Filters> {
    var start := if existing.None? || existing.value == [] then [] else existing.value;
    AddTokens(start, tokens)
  }

  predicate WellFormedToken(token: string) {
    |Split(token, '=')| == 2
  }

  /** The value the last well-formed token for `c` gives, if any. */
  function LastValue(tokens: seq<string>, c: Criterion): Option<string>
    decreases |tokens|
  {
    if tokens == [] then None
    else
      var parts := Split(tokens[|tokens| - 1], '=');
      if |parts| == 2 && Named(parts[0]) == Some(c) then Some(parts[1])
      else LastValue(tokens[..|tokens| - 1], c)
  }

  /** The action fails, with `ValueError`, exactly when some token does not
      split into two parts at `=`; otherwise every member ends up with the
      value of its last token, or keeps the one it had. */
  lemma {:induction false} AddTokensSpec(m: Filters, tokens: seq<string>)
    ensures AddTokens(m, tokens).Raise? <==> exists i :: 0 <= i < |tokens| && !WellFormedToken(tokens[i])
    ensures AddTokens(m, tokens).Raise? ==> AddTokens(m, tokens).exc == ValueError
    ensures AddTokens(m, tokens).Ok? ==> forall c ::
              Lookup(AddTokens(m, tokens).value, c) == if LastValue(tokens, c).Some? then LastValue(tokens, c) else Lookup(m, c)
    ensures AddTokens(m, tokens).Ok? && DistinctKeys(m) ==> DistinctKeys(AddTokens(m, tokens).value)
    decreases |tokens|
  {
    if tokens != [] {
      var init := tokens[..|tokens| - 1];
      var last := tokens[|tokens| - 1];
      AddTokensSpec(m, init);
      assert forall i :: 0 <= i < |init| ==> init[i] == tokens[i];
      var prev := AddTokens(m, init);
      if prev.Ok? {
        var parts := Split(last, '=');
        if |parts| == 2 && Named(parts[0]).Some? {
          AssignLookup(prev.value, Named(parts[0]).value, parts[1]);
          if DistinctKeys(prev.value) {
            AssignDistinct(prev.value, Named(parts[0]).value, parts[1]);
          }
        }
        if !WellFormedToken(last) {
          assert !WellFormedToken(tokens[|tokens| - 1]);
        }
      } else {
        var i :| 0 <= i < |init| && !WellFormedToken(init[i]);
        assert !WellFormedToken(tokens[i]);
      }
    }
  }

  /** What the action leaves in the namespace: each member the tokens
      name holds the value of its last token; the others keep the value a
      previous `-f` gave them, or are absent. */
  lemma FilterActionSpec(existing: Option<Filters>, tokens: seq<string>)
    ensures FilterAction(existing, tokens).Raise? <==> exists i :: 0 <= i < |tokens| && !WellFormedToken(tokens[i])
    ensures FilterAction(existing, tokens).Ok? ==> forall c ::
              Lookup(FilterAction(existing, tokens).value, c)
              == if LastValue(tokens, c).Some? then LastValue(tokens, c)
                 else if existing.Some? then Lookup(existing.value, c) else None
  {
    var start := if existing.None? || existing.value == [] then [] else existing.value;
    AddTokensSpec(start, tokens);
  }

  // ---- `filter_row` ----

  /** The ANY test: some cell equals the value, ignoring case. */
  predicate MatchesSomeCell(row: seq<string>, v: string) {
    exists i :: 0 <= i < |row| && SameIgnoringCase(row[i], v)
  }

  /** The loop over the criteria in insertion order: a column past the end
      of the row raises `IndexError`, the first mismatch returns False. */
  function CheckAll(row: seq<string>, f: Filters): Result<bool> {
    if f == [] then Ok(true)
    else if Column(f[0].0) >= |row| then Raise(IndexError)
    else if !SameIgnoringCase(row[Column(f[0].0)], f[0].1) then Ok(false)
    else CheckAll(row, f[1..])
  }

  /** `filter_row`. Without `-f` the map is `None` and `filters.keys()`
      raises `AttributeError`. The `pass` for ANY skips nothing: ANY is
      also compared with column 1. */
  function FilterRow(row: seq<string>, filters: Option<Filters>): Result<bool> {
    if filters.None? then Raise(AttributeError)
    else if Lookup(filters.value, Any).Some? && MatchesSomeCell(row, Lookup(filters.value, Any).value) then Ok(true)
    else CheckAll(row, filters.value)
  }

  /** Every criterion's column holds its value, ignoring case. */
  predicate AllMatch(row: seq<string>, f: Filters) {
    forall k :: 0 <= k < |f| ==> Column(f[k].0) < |row| && SameIgnoringCase(row[Column(f[k].0)], f[k].1)
  }

  /** Every criterion's column exists in the row. */
  predicate ColumnsFit(row: seq<string>, f: Filters) {
    forall k :: 0 <= k < |f| ==> Column(f[k].0) < |row|
  }

  /** The loop accepts exactly the rows every criterion matches; it can
      only fail by indexing past the row, and cannot when the columns fit. */
  lemma {:induction false} CheckAllSpec(row: seq<string>, f: Filters)
    ensures CheckAll(row, f) == Ok(true) <==> AllMatch(row, f)
    ensures CheckAll(row, f).Raise? ==> CheckAll(row, f).exc == IndexError && !ColumnsFit(row, f)
    ensures ColumnsFit(row, f) ==> CheckAll(row, f) == Ok(AllMatch(row, f))
  {
    if f != [] {
      CheckAllSpec(row, f[1..]);
      assert forall k :: 0 < k < |f| ==> f[k] == f[1..][k - 1];
      if AllMatch(row, f[1..]) && Column(f[0].0) < |row| && SameIgnoringCase(row[Column(f[0].0)], f[0].1) {
        assert AllMatch(row, f);
      }
      if ColumnsFit(row, f) {
        assert ColumnsFit(row, f[1..]);
      }
      if !ColumnsFit(row, f[1..]) {
        var k :| 0 <= k < |f[1..]| && Column(f[1..][k].0) >= |row|;
        assert Column(f[k + 1].0) >= |row|;
      }
    }
  }

  /** A row the ANY value matches in some cell is accepted; otherwise it is
      rejected or the scan of the criteria raises, since the ANY criterion
      itself compares column 1. When every column fits, the ANY value alone
      decides. */
  lemma FilterRowWithAny(row: seq<string>, f: Filters, v: string)
    requires Lookup(f, Any) == Some(v)
    ensures FilterRow(row, Some(f)) == Ok(true) <==> MatchesSomeCell(row, v)
    ensures ColumnsFit(row, f) ==> FilterRow(row, Some(f)) == Ok(MatchesSomeCell(row, v))
  {
    CheckAllSpec(row, f);
    var k := LookupIndex(f, Any);
  }

  /** Without ANY, a row is accepted exactly when every criterion matches;
      when the columns fit that is the whole answer. */
  lemma FilterRowWithoutAny(row: seq<string>, f: Filters)
    requires Lookup(f, Any).None?
    ensures FilterRow(row, Some(f)) == Ok(true) <==> AllMatch(row, f)
    ensures ColumnsFit(row, f) ==> FilterRow(row, Some(f)) == Ok(AllMatch(row, f))
  {
    CheckAllSpec(row, f);
  }

  /** An empty filter map accepts every row; no map at all raises. */
  lemma FilterRowEdges(row: seq<string>)
    ensures FilterRow(row, Some([])) == Ok(true)
    ensures FilterRow(row, None) == Raise(AttributeError)
  {
  }

  /** Where a found key sits. */
  lemma {:induction false} LookupIndex(f: Filters, k: Criterion) returns (i: nat)
    requires Lookup(f, k).Some?
    ensures i < |f| && f[i] == (k, Lookup(f, k).value)
  {
    if f[0].0 == k {
      i := 0;
    } else {
      var j := LookupIndex(f[1..], k);
      i := j + 1;
    }
  }

  // ---- `sort_input` ----

  const TwoTo32: int := 0x1_0000_0000
  const TwoTo128: int := 0x1_0000_0000_0000_0000_0000_0000_0000_0000

  /** What `ipaddress.ip_address(n)` makes of an integer. */
  datatype Address = V4(n: int) | V6(n: int)

  function IpAddress(n: int): (a: Result<Address>)
    ensures a.Ok? <==> 0 <= n < TwoTo128
    ensures a.Ok? ==> a.value.n == n && (a.value.V4? <==> n < TwoTo32)
  {
    if 0 <= n < TwoTo32 then Ok(V4(n))
    else if 0 <= n < TwoTo128 then Ok(V6(n))
    else Raise(ValueError)
  }

  /** `.ipv4_mapped`: IPv4 addresses have no such attribute; an IPv6
      address in `::ffff:0:0/96` gives its low 32 bits, any other `None`. */
  function Ipv4Mapped(a: Address): Result<Option<int>> {
    if a.V4? then Raise(AttributeError)
    else if a.n / TwoTo32 == 0xFFFF then Ok(Some(a.n % TwoTo32))
    else Ok(None)
  }

  /** An integer in `::ffff:0:0/96` (section 2.5.5.2 of RFC 4291). */
  predicate IsMapped(n: int) {
    0xFFFF * TwoTo32 <= n < 0x1_0000 * TwoTo32
  }

  /** Lines 53-67 after the two `int(...)` calls: the range to add, `None`
      when `ipv4_only` drops it. */
  function NormalizeRange(start: int, end: int, ipv4Only: bool): Result<Option<Range>> {
    var a :- IpAddress(start);
    var m :- Ipv4Mapped(a);
    var bounds: (int, int) :-
      if m.None? then Ok((start, end))
      else
        var b :- IpAddress(end);
        var e :- Ipv4Mapped(b);
        if e.None? then Raise(TypeError) else Ok((m.value, e.value));
    if ipv4Only then
      var s :- IpAddress(bounds.0);
      if s.V6? then Ok(None) else Ok(Some(Range(bounds.0, bounds.1)))
    else Ok(Some(Range(bounds.0, bounds.1)))
  }

  /** `sort_input` on one CSV row. */
  function SortInput(row: seq<string>, ipv4Only: bool): Result<Option<Range>> {
    if |row| < 2 then Raise(ValueError)
    else if ParseInt(row[0]).None? || ParseInt(row[1]).None? then Raise(ValueError)
    else NormalizeRange(ParseInt(row[0]).value, ParseInt(row[1]).value, ipv4Only)
  }

  lemma MappedIsV6(n: int)
    requires IsMapped(n)
    ensures IpAddress(n) == Ok(V6(n)) && Ipv4Mapped(V6(n)) == Ok(Some(n - 0xFFFF * TwoTo32))
    ensures 0 <= n - 0xFFFF * TwoTo32 < TwoTo32
  {
    assert n / TwoTo32 == 0xFFFF;
  }

  lemma UnmappedV6(n: int)
    requires TwoTo32 <= n < TwoTo128 && !IsMapped(n)
    ensures IpAddress(n) == Ok(V6(n)) && Ipv4Mapped(V6(n)) == Ok(None)
  {
  }

  /** What the normalisation does, case by case: a start that is an IPv4
      integer always raises, since IPv4 addresses have no `ipv4_mapped`; a
      mapped start needs a mapped end and keeps the low 32 bits of both; any
      other IPv6 start is kept with its end unchecked, or dropped under
      `ipv4_only`. */
  lemma NormalizeRangeSpec(start: int, end: int, ipv4Only: bool)
    ensures 0 <= start < TwoTo32 ==> NormalizeRange(start, end, ipv4Only) == Raise(AttributeError)
    ensures (start < 0 || TwoTo128 <= start) ==> NormalizeRange(start, end, ipv4Only) == Raise(ValueError)
    ensures IsMapped(start) && IsMapped(end) ==>
              NormalizeRange(start, end, ipv4Only) == Ok(Some(Range(start % TwoTo32, end % TwoTo32)))
    ensures IsMapped(start) && 0 <= end < TwoTo32 ==> NormalizeRange(start, end, ipv4Only) == Raise(AttributeError)
    ensures IsMapped(start) && TwoTo32 <= end < TwoTo128 && !IsMapped(end) ==>
              NormalizeRange(start, end, ipv4Only) == Raise(TypeError)
    ensures TwoTo32 <= start < TwoTo128 && !IsMapped(start) ==>
              NormalizeRange(start, end, ipv4Only) == if ipv4Only then Ok(None) else Ok(Some(Range(start, end)))
  {
    if IsMapped(start) {
      MappedIsV6(start);
      if IsMapped(end) {
        MappedIsV6(end);
      } else if TwoTo32 <= end < TwoTo128 {
        UnmappedV6(end);
      }
    } else if TwoTo32 <= start < TwoTo128 {
      UnmappedV6(start);
    }
  }

  /** Under `ipv4_only` a range is dropped exactly when its start, after the
      reduction, is not below 2^32; a kept range always starts below 2^32
      once reduced, or at 2^32 and above when `ipv4_only` is off. */
  lemma Ipv4OnlyDrops(start: int, end: int)
    ensures NormalizeRange(start, end, true) == Ok(None) <==> NormalizeRange(start, end, false).Ok? && NormalizeRange(start, end, false).value.Some? && NormalizeRange(start, end, false).value.value.start >= TwoTo32
    ensures NormalizeRange(start, end, true).Ok? && NormalizeRange(start, end, true).value.Some? ==>
              NormalizeRange(start, end, true) == NormalizeRange(start, end, false) && NormalizeRange(start, end, true).value.value.start < TwoTo32
  {
    if IsMapped(start) {
      MappedIsV6(start);
    } else if TwoTo32 <= start < TwoTo128 {
      UnmappedV6(start);
    }
  }

  /** The example of two touching ranges, written as IPv4-mapped integers
      (`::ffff:0.0.0.1` to `::ffff:0.0.0.10` and `::ffff:0.0.0.11` to
      `::ffff:0.0.0.20`), normalises to (1, 10) and (11, 20) and merges to
      (1, 20); written as plain integers the first row already raises. */
  lemma TouchingRangesExample()
    ensures NormalizeRange(0xFFFF_0000_0001, 0xFFFF_0000_000A, false) == Ok(Some(Range(1, 10)))
    ensures NormalizeRange(0xFFFF_0000_000B, 0xFFFF_0000_0014, false) == Ok(Some(Range(11, 20)))
    ensures Merge([Range(1, 10), Range(11, 20)]) == [Range(1, 20)]
    ensures NormalizeRange(1, 10, false) == Raise(AttributeError)
  {
    NormalizeRangeSpec(0xFFFF_0000_0001, 0xFFFF_0000_000A, false);
    NormalizeRangeSpec(0xFFFF_0000_000B, 0xFFFF_0000_0014, false);
    NormalizeRangeSpec(1, 10, false);
    MergeJoinsAdjacent();
  }

  // ---- the start-ordered collection ----

  /** Where `SortedList.add` puts a range: after every range that does not
      start later, scanning from the front. */
  function InsertAt(rs: seq<Range>, r: Range): (k: nat)
    ensures k <= |rs|
    ensures forall i :: 0 <= i < k ==> rs[i].start <= r.start
    ensures k < |rs| ==> r.start < rs[k].start
  {
    if rs == [] || r.start < rs[0].start then 0 else 1 + InsertAt(rs[1..], r)
  }

  function Insert(rs: seq<Range>, r: Range): seq<Range> {
    rs[..InsertAt(rs, r)] + [r] + rs[InsertAt(rs, r)..]
  }

  /** Where each element of `Insert(rs, r)` comes from. */
  lemma InsertIndex(rs: seq<Range>, r: Range)
    ensures var k, out := InsertAt(rs, r), Insert(rs, r);
      && |out| == |rs| + 1 && out[k] == r
      && (forall i :: 0 <= i < k ==> out[i] == rs[i])
      && (forall i :: k < i < |out| ==> out[i] == rs[i - 1])
  {
  }

  lemma InsertSorted(rs: seq<Range>, r: Range)
    requires SortedByStart(rs)
    ensures SortedByStart(Insert(rs, r))
  {
    var k := InsertAt(rs, r);
    var out := Insert(rs, r);
    InsertIndex(rs, r);
    forall i, j | 0 <= i < j < |out|
      ensures out[i].start <= out[j].start
    {
      if j < k {
        assert out[i] == rs[i] && out[j] == rs[j];
      } else if i > k {
        assert out[i] == rs[i - 1] && out[j] == rs[j - 1];
      } else if i == k {
        assert out[j] == rs[j - 1] && rs[k].start <= rs[j - 1].start;
      } else if j == k {
        assert out[i] == rs[i];
      } else {
        assert out[i] == rs[i] && out[j] == rs[j - 1];
      }
    }
  }

  /** Adding keeps the collection ordered by start and holding exactly the
      ranges added; a range goes after those with the same start. */
  lemma InsertSpec(rs: seq<Range>, r: Range)
    requires SortedByStart(rs)
    ensures SortedByStart(Insert(rs, r))
    ensures multiset(Insert(rs, r)) == multiset(rs) + multiset{r}
    ensures forall i :: 0 <= i < |rs| && rs[i].start <= r.start ==> i < InsertAt(rs, r)
  {
    var k := InsertAt(rs, r);
    assert rs == rs[..k] + rs[k..];
    InsertSorted(rs, r);
    forall i | 0 <= i < |rs| && rs[i].start <= r.start
      ensures i < k
    {
    }
  }

  // ---- reading the database ----

  /** The rows read so far, each kept when the filter accepts it and added
      unless dropped; the first exception ends the run. */
  function LoadRanges(rows: seq<seq<string>>, filters: Option<Filters>, ipv4Only: bool): Result<seq<Range>>
    decreases |rows|
  {
    if rows == [] then Ok([])
    else
      var acc :- LoadRanges(rows[..|rows| - 1], filters, ipv4Only);
      var row := rows[|rows| - 1];
      var keep :- FilterRow(row, filters);
      if !keep then Ok(acc)
      else
        var r :- SortInput(row, ipv4Only);
        if r.None? then Ok(acc) else Ok(Insert(acc, r.value))
  }

  /** The ranges of the accepted, kept rows, in file order. */
  function Kept(rows: seq<seq<string>>, filters: Option<Filters>, ipv4Only: bool): seq<Range>
    decreases |rows|
  {
    if rows == [] then []
    else
      var row := rows[|rows| - 1];
      var here :=
        if FilterRow(row, filters) == Ok(true) && SortInput(row, ipv4Only).Ok? && SortInput(row, ipv4Only).value.Some?
        then [SortInput(row, ipv4Only).value.value] else [];
      Kept(rows[..|rows| - 1], filters, ipv4Only) + here
  }

  /** A load that raises nothing yields the kept ranges, ordered by start. */
  lemma {:induction false} LoadRangesSpec(rows: seq<seq<string>>, filters: Option<Filters>, ipv4Only: bool)
    requires LoadRanges(rows, filters, ipv4Only).Ok?
    ensures SortedByStart(LoadRanges(rows, filters, ipv4Only).value)
    ensures multiset(LoadRanges(rows, filters, ipv4Only).value) == multiset(Kept(rows, filters, ipv4Only))
    decreases |rows|
  {
    if rows != [] {
      var init := rows[..|rows| - 1];
      LoadRangesSpec(init, filters, ipv4Only);
      var acc := LoadRanges(init, filters, ipv4Only).value;
      var row := rows[|rows| - 1];
      if FilterRow(row, filters) == Ok(true) && SortInput(row, ipv4Only).value.Some? {
        InsertSpec(acc, SortInput(row, ipv4Only).value.value);
      }
    }
  }

  lemma CoversMultiset(a: seq<Range>, b: seq<Range>)
    requires multiset(a) == multiset(b)
    ensures forall x :: Covers(a, x) <==> Covers(b, x)
    ensures AllWellFormed(a) <==> AllWellFormed(b)
  {
    forall x | Covers(a, x)
      ensures Covers(b, x)
    {
      var i :| 0 <= i < |a| && InRange(a[i], x);
      assert a[i] in multiset(b);
      var j :| 0 <= j < |b| && b[j] == a[i];
    }
    forall x | Covers(b, x)
      ensures Covers(a, x)
    {
      var i :| 0 <= i < |b| && InRange(b[i], x);
      assert b[i] in multiset(a);
      var j :| 0 <= j < |a| && a[j] == b[i];
    }
    if AllWellFormed(a) {
      forall i | 0 <= i < |b|
        ensures WellFormed(b[i])
      {
        assert b[i] in multiset(a);
        var j :| 0 <= j < |a| && a[j] == b[i];
      }
    }
    if AllWellFormed(b) {
      forall i | 0 <= i < |a|
        ensures WellFormed(a[i])
      {
        assert a[i] in multiset(b);
        var j :| 0 <= j < |b| && b[j] == a[i];
      }
    }
  }

  /** The script's result before registration: the merge of the loaded
      ranges, nothing when no row was kept. */
  function GeoRanges(rows: seq<seq<string>>, filters: Option<Filters>, ipv4Only: bool): Result<seq<Range>> {
    var loaded :- LoadRanges(rows, filters, ipv4Only);
    Ok(Merge(loaded))
  }

  /** When the kept ranges all have start <= end, the script's ranges are
      ordered, at least two apart, no more than the kept rows, and cover
      exactly the addresses the kept rows cover. */
  lemma GeoRangesSpec(rows: seq<seq<string>>, filters: Option<Filters>, ipv4Only: bool)
    requires LoadRanges(rows, filters, ipv4Only).Ok?
    requires AllWellFormed(Kept(rows, filters, ipv4Only))
    ensures GeoRanges(rows, filters, ipv4Only).Ok?
    ensures Separated(GeoRanges(rows, filters, ipv4Only).value)
    ensures |GeoRanges(rows, filters, ipv4Only).value| <= |Kept(rows, filters, ipv4Only)|
    ensures forall x :: Covers(GeoRanges(rows, filters, ipv4Only).value, x) <==> Covers(Kept(rows, filters, ipv4Only), x)
  {
    var loaded := LoadRanges(rows, filters, ipv4Only).value;
    LoadRangesSpec(rows, filters, ipv4Only);
    CoversMultiset(loaded, Kept(rows, filters, ipv4Only));
    assert |loaded| == |multiset(loaded)|;
    MergeSeparated(loaded);
    MergeCovers(loaded);
    MergeNoLonger(loaded);
  }
}
