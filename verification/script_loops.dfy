/** The two loops auto-add-assets.py and delete-ip.py are built from: the
    pagination loop that fetches pages until the offset passes the total
    the first page reports, and the loop that issues one retried endpoint
    call per selected item, counting the calls and ending the script at
    the first call whose tries are exhausted. */
module ScriptLoops {
  import opened Py
  import opened Json
  import opened Retry
  import opened Api

  // ---- pagination ----

  /** When the loop breaks: auto-add-assets.py once `offset > total`,
      delete-ip.py once `offset < total` fails, that is `offset >= total`. */
  datatype Rule = Beyond | Reached

  predicate Stops(rule: Rule, offset: int, total: int) {
    if rule == Beyond then offset > total else offset >= total
  }

  /** `int(page['total'])` */
  function TotalOf(page: Response): Result<int> {
    if page.total.None? then Raise(KeyError) else IntOf(page.total.value)
  }

  /** How a pagination loop ends: with the pages, by `exit(1)` after a
      retried search came back `None`, by an exception, or not within the
      iterations the fuel allows. */
  datatype Paged = Collected(pages: seq<Response>) | GaveUp | Crashed(exc: Exception) | Unfinished

  /** The searches one pagination loop sends. Each iteration calls
      `request(lastid)`; `answer(k)(q)` is what the retried call for the
      request `q` returns on the k-th iteration, `None` when all five tries
      raised; `cursorOf` reads the next `lastid` off the page that came
      back (`get_lastid` in both scripts). */
  datatype Search = Search(request: string -> Request, answer: nat -> Request -> Option<Response>,
                           cursorOf: Response -> string)

  /** The loop with `pages` collected, `lastid` at `cursor` and the offset
      at `offset`. The total is read from the first page on every
      iteration; the offset only decides when to stop, it is never sent.
      Under `Reached` the progress line divides by the total before the
      loop goes on. */
  function Collect(s: Search, rule: Rule, limit: int, pages: seq<Response>, cursor: string, offset: int, fuel: nat): Paged
    decreases fuel
  {
    var r := s.answer(|pages|)(s.request(cursor));
    if r.None? then GaveUp
    else
      var got := pages + [r.value];
      var next := offset + limit;
      match TotalOf(got[0])
      case Raise(e) => Crashed(e)
      case Ok(total) =>
        if Stops(rule, next, total) then Collected(got)
        else if rule == Reached && total == 0 then Crashed(ZeroDivisionError)
        else if fuel == 0 then Unfinished
        else Collect(s, rule, limit, got, s.cursorOf(r.value), next, fuel - 1)
  }

  /** The loop from its start: no pages, `lastid` empty, the offset at `start`. */
  function Paginate(s: Search, rule: Rule, start: int, limit: int, fuel: nat): Paged {
    Collect(s, rule, limit, [], "", start, fuel)
  }

  // ---- the reference the loop is checked against ----

  /** The cursor the k-th request carries: '' for the first, then the one
      read off the page before it. */
  function Cursor(s: Search, k: nat): string
    decreases k, 0
  {
    if k == 0 then ""
    else
      var r := Answer(s, k - 1);
      if r.Some? then s.cursorOf(r.value) else ""
  }

  /** What the k-th search returns. */
  function Answer(s: Search, k: nat): Option<Response>
    decreases k, 1
  {
    s.answer(k)(s.request(Cursor(s, k)))
  }

  /** The least `n >= 1` with `n * limit >= gap`. */
  function Needed(gap: int, limit: int): (n: nat)
    requires limit > 0
    ensures n >= 1 && n * limit >= gap
    ensures n == 1 || (n - 1) * limit < gap
    decreases gap
  {
    if gap <= limit then 1
    else
      var n := Needed(gap - limit, limit);
      assert (n + 1) * limit == n * limit + limit;
      n + 1
  }

  lemma MulMonotone(m: int, n: int, limit: int)
    requires 0 <= m <= n && limit > 0
    ensures m * limit <= n * limit
  {
  }

  /** The number of pages the loop fetches before it stops: the least
      `n >= 1` whose offset `start + n * limit` meets the rule. */
  function PageCount(rule: Rule, start: int, limit: int, total: int): (n: nat)
    requires limit > 0
    ensures n >= 1 && Stops(rule, start + n * limit, total)
    ensures forall m :: 1 <= m < n ==> !Stops(rule, start + m * limit, total)
  {
    var gap := if rule == Beyond then total - start + 1 else total - start;
    var n := Needed(gap, limit);
    forall m | 1 <= m < n
      ensures !Stops(rule, start + m * limit, total)
    {
      MulMonotone(m, n - 1, limit);
    }
    n
  }

  /** The first `n` pages the searches return. */
  function Prefix(s: Search, n: nat): seq<Response>
    requires forall k :: 0 <= k < n ==> Answer(s, k).Some?
  {
    seq(n, k requires 0 <= k < n && Answer(s, k).Some? => Answer(s, k).value)
  }

  /** The first page's total can be read and the division by it in
      delete-ip.py's progress line cannot fail. */
  predicate Readable(s: Search, rule: Rule, start: int, limit: int, total: int) {
    && Answer(s, 0).Some? && TotalOf(Answer(s, 0).value) == Ok(total)
    && (rule == Reached && total == 0 ==> Stops(rule, start + limit, total))
  }

  lemma PrefixSnoc(s: Search, k: nat)
    requires forall j :: 0 <= j <= k ==> Answer(s, j).Some?
    ensures Prefix(s, k) + [Answer(s, k).value] == Prefix(s, k + 1)
    ensures (Prefix(s, k) + [Answer(s, k).value])[0] == Answer(s, 0).value
  {
  }

  lemma {:induction false} CollectFrom(s: Search, rule: Rule, start: int, limit: int, total: int, k: nat, fuel: nat)
    requires limit > 0 && Readable(s, rule, start, limit, total)
    requires forall j :: 0 <= j < PageCount(rule, start, limit, total) ==> Answer(s, j).Some?
    requires k < PageCount(rule, start, limit, total)
    requires fuel + k + 1 >= PageCount(rule, start, limit, total)
    ensures Collect(s, rule, limit, Prefix(s, k), Cursor(s, k), start + k * limit, fuel)
         == Collected(Prefix(s, PageCount(rule, start, limit, total)))
    decreases fuel
  {
    var n := PageCount(rule, start, limit, total);
    PrefixSnoc(s, k);
    assert start + k * limit + limit == start + (k + 1) * limit;
    if k + 1 < n {
      assert !Stops(rule, start + (k + 1) * limit, total);
      CollectFrom(s, rule, start, limit, total, k + 1, fuel - 1);
    }
  }

  /** With a positive limit, searches that keep answering and a readable
      total, the loop fetches exactly `PageCount` pages, in order, each
      request carrying the cursor of the page before. */
  lemma PaginateCount(s: Search, rule: Rule, start: int, limit: int, total: int, fuel: nat)
    requires limit > 0 && Readable(s, rule, start, limit, total)
    requires forall j :: 0 <= j < PageCount(rule, start, limit, total) ==> Answer(s, j).Some?
    requires fuel + 1 >= PageCount(rule, start, limit, total)
    ensures Paginate(s, rule, start, limit, fuel) == Collected(Prefix(s, PageCount(rule, start, limit, total)))
  {
    assert Prefix(s, 0) == [];
    CollectFrom(s, rule, start, limit, total, 0, fuel);
  }

  lemma {:induction false} CollectedAnswers(s: Search, rule: Rule, limit: int, k: nat, offset: int, fuel: nat)
    requires forall j :: 0 <= j < k ==> Answer(s, j).Some?
    ensures var p := Collect(s, rule, limit, Prefix(s, k), Cursor(s, k), offset, fuel);
      p.Collected? ==> |p.pages| > k && forall j :: 0 <= j < |p.pages| ==> Answer(s, j) == Some(p.pages[j])
    decreases fuel
  {
    if Answer(s, k).Some? {
      PrefixSnoc(s, k);
      if fuel > 0 {
        CollectedAnswers(s, rule, limit, k + 1, offset + limit, fuel - 1);
      }
    }
  }

  /** Whatever the limit, the rule and the fuel, the pages a loop collects
      are the answers to its searches, in order. */
  lemma PaginateAnswers(s: Search, rule: Rule, start: int, limit: int, fuel: nat)
    ensures var p := Paginate(s, rule, start, limit, fuel);
      p.Collected? ==> p.pages != [] && forall j :: 0 <= j < |p.pages| ==> Answer(s, j) == Some(p.pages[j])
  {
    assert Prefix(s, 0) == [];
    CollectedAnswers(s, rule, limit, 0, start, fuel);
  }

  /** A cursor read that finds nothing on any page leaves every request the
      first one. */
  lemma StuckCursor(s: Search, k: nat)
    requires forall j: nat, q: Request :: s.answer(j)(q).Some? ==> s.cursorOf(s.answer(j)(q).value) == ""
    ensures Cursor(s, k) == "" && Answer(s, k) == s.answer(k)(s.request(""))
  {
  }

  /** With such a cursor read, every page collected answers the first
      request, so a server that answers a request the same way each time
      hands back the first page over and over. */
  lemma RepeatsFirstPage(s: Search, rule: Rule, start: int, limit: int, fuel: nat)
    requires forall j: nat, q: Request :: s.answer(j)(q).Some? ==> s.cursorOf(s.answer(j)(q).value) == ""
    ensures var p := Paginate(s, rule, start, limit, fuel);
      p.Collected? ==>
        && (forall j :: 0 <= j < |p.pages| ==> s.answer(j)(s.request("")) == Some(p.pages[j]))
        && ((forall j: nat, q: Request :: s.answer(j)(q) == s.answer(0)(q)) ==>
              forall j :: 0 <= j < |p.pages| ==> p.pages[j] == p.pages[0])
  {
    PaginateAnswers(s, rule, start, limit, fuel);
    forall j: nat
      ensures Answer(s, j) == s.answer(j)(s.request(""))
    {
      StuckCursor(s, j);
    }
  }

  lemma {:induction false} CollectForever(s: Search, rule: Rule, limit: int, total: int, pages: seq<Response>, offset: int, fuel: nat)
    requires limit <= 0 && (forall k :: Answer(s, k).Some?) && TotalOf(Answer(s, 0).value) == Ok(total)
    requires pages == [] || pages[0] == Answer(s, 0).value
    requires !Stops(rule, offset + limit, total)
    requires rule == Reached ==> total != 0
    ensures Collect(s, rule, limit, pages, Cursor(s, |pages|), offset, fuel) == Unfinished
    decreases fuel
  {
    var got := pages + [Answer(s, |pages|).value];
    assert got[0] == Answer(s, 0).value;
    if fuel > 0 {
      CollectForever(s, rule, limit, total, got, offset + limit, fuel - 1);
    }
  }

  /** With a limit of zero or less the offset never grows: once the first
      offset misses the rule, searches that keep answering keep the loop
      going however many iterations are allowed. */
  lemma PaginateDiverges(s: Search, rule: Rule, start: int, limit: int, total: int, fuel: nat)
    requires limit <= 0 && (forall k :: Answer(s, k).Some?) && TotalOf(Answer(s, 0).value) == Ok(total)
    requires !Stops(rule, start + limit, total)
    requires rule == Reached ==> total != 0
    ensures Paginate(s, rule, start, limit, fuel) == Unfinished
  {
    CollectForever(s, rule, limit, total, [], start, fuel);
  }

  /** A first page whose total is zero, with a first offset below zero,
      ends delete-ip.py's loop in the division of the progress line. */
  lemma ProgressDividesByZero(s: Search, start: int, limit: int, fuel: nat)
    requires Answer(s, 0).Some? && TotalOf(Answer(s, 0).value) == Ok(0) && start + limit < 0
    ensures Paginate(s, Reached, start, limit, fuel) == Crashed(ZeroDivisionError)
  {
    assert ([] + [Answer(s, 0).value])[0] == Answer(s, 0).value;
  }

  /** The two rules fetch the same number of pages, except when an offset
      lands exactly on the total: `>` then fetches one page more. */
  lemma RulesDiffer(start: int, limit: int, total: int)
    requires limit > 0
    ensures var n := PageCount(Reached, start, limit, total);
      PageCount(Beyond, start, limit, total) == if start + n * limit == total then n + 1 else n
  {
    var n := PageCount(Reached, start, limit, total);
    if start + n * limit == total {
      assert start + (n + 1) * limit == start + n * limit + limit;
    }
  }

  // ---- counted endpoint calls ----

  /** Whether one retried call to an endpoint that returns `True` came back
      with something: `raised(j)` says whether its j-th attempt raised. */
  function Succeeds(raised: nat -> bool): bool {
    TryMultipleTimes((j: nat) => EndpointCall(raised(j)), ScriptTries).result.Some?
  }

  /** Every one of the five tries raised. */
  predicate Exhausted(raised: nat -> bool) {
    forall j :: 0 <= j < ScriptTries ==> raised(j)
  }

  lemma SucceedsSpec(raised: nat -> bool)
    ensures Succeeds(raised) <==> !Exhausted(raised)
  {
    EndpointRetry(raised, ScriptTries);
  }

  /** How a counting loop ends: normally, with the count it prints, or by
      `exit(1)`, with the count reached before. */
  datatype Run = Finished(count: nat) | Exited(count: nat)

  /** The number of items `select` picks. */
  function CountSelected<T>(items: seq<T>, select: T -> bool): (n: nat)
    ensures n <= |items|
  {
    if items == [] then 0 else (if select(items[0]) then 1 else 0) + CountSelected(items[1..], select)
  }

  /** The loop from item `i` on, with `count` calls made: every item
      `select` picks issues a retried call, which `ok(i)` says came back;
      the first that did not exits the script. */
  function CallFrom<T>(items: seq<T>, select: T -> bool, ok: nat -> bool, i: nat, count: nat): Run
    requires i <= |items|
    decreases |items| - i
  {
    if i == |items| then Finished(count)
    else if !select(items[i]) then CallFrom(items, select, ok, i + 1, count)
    else if !ok(i) then Exited(count)
    else CallFrom(items, select, ok, i + 1, count + 1)
  }

  function CallEach<T>(items: seq<T>, select: T -> bool, ok: nat -> bool): Run {
    CallFrom(items, select, ok, 0, 0)
  }

  /** A selected item whose call did not come back. */
  predicate FailsAt<T>(items: seq<T>, select: T -> bool, ok: nat -> bool, i: int) {
    0 <= i < |items| && select(items[i]) && !ok(i)
  }

  lemma CountSelectedSnoc<T>(items: seq<T>, select: T -> bool, i: nat)
    requires i < |items|
    ensures CountSelected(items[..i + 1], select) == CountSelected(items[..i], select) + (if select(items[i]) then 1 else 0)
    decreases i
  {
    var s := items[..i + 1];
    if i > 0 {
      assert s[1..] == items[1..][..i];
      assert items[..i][1..] == items[1..][..i - 1];
      CountSelectedSnoc(items[1..], select, i - 1);
    } else {
      assert s[1..] == [];
    }
  }

  lemma {:induction false} CallFromSpec<T>(items: seq<T>, select: T -> bool, ok: nat -> bool, i: nat)
    requires i <= |items|
    ensures var r := CallFrom(items, select, ok, i, CountSelected(items[..i], select));
      && (r.Finished? <==> forall k :: i <= k < |items| ==> !FailsAt(items, select, ok, k))
      && (r.Finished? ==> r.count == CountSelected(items, select))
      && (r.Exited? ==> exists k :: i <= k < |items| && FailsAt(items, select, ok, k)
                          && r.count == CountSelected(items[..k], select)
                          && forall j :: i <= j < k ==> !FailsAt(items, select, ok, j))
    decreases |items| - i
  {
    if i == |items| {
      assert items[..i] == items;
    } else {
      CountSelectedSnoc(items, select, i);
      if FailsAt(items, select, ok, i) {
        assert CallFrom(items, select, ok, i, CountSelected(items[..i], select)) == Exited(CountSelected(items[..i], select));
      } else {
        CallFromSpec(items, select, ok, i + 1);
        var r := CallFrom(items, select, ok, i, CountSelected(items[..i], select));
        if r.Exited? {
          var k :| i + 1 <= k < |items| && FailsAt(items, select, ok, k)
                   && r.count == CountSelected(items[..k], select)
                   && forall j :: i + 1 <= j < k ==> !FailsAt(items, select, ok, j);
        }
      }
    }
  }

  /** The loop finishes exactly when every selected item's call came back,
      and then it has counted the selected items; otherwise it exits at the
      first selected item whose call did not, having counted the selected
      items before it. */
  lemma CallEachSpec<T>(items: seq<T>, select: T -> bool, ok: nat -> bool)
    ensures var r := CallEach(items, select, ok);
      && (r.Finished? <==> forall k :: 0 <= k < |items| ==> !FailsAt(items, select, ok, k))
      && (r.Finished? ==> r.count == CountSelected(items, select))
      && (r.Exited? ==> exists k :: FailsAt(items, select, ok, k)
                          && r.count == CountSelected(items[..k], select)
                          && forall j :: 0 <= j < k ==> !FailsAt(items, select, ok, j))
  {
    assert items[..0] == [];
    CallFromSpec(items, select, ok, 0);
  }

  /** Every item selected: the count is the number of items. */
  lemma {:induction false} CountAll<T>(items: seq<T>, select: T -> bool)
    requires forall k :: 0 <= k < |items| ==> select(items[k])
    ensures CountSelected(items, select) == |items|
  {
    if items != [] {
      CountAll(items[1..], select);
    }
  }

  /** No item selected: the count is zero. */
  lemma {:induction false} CountNone<T>(items: seq<T>, select: T -> bool)
    requires forall k :: 0 <= k < |items| ==> !select(items[k])
    ensures CountSelected(items, select) == 0
  {
    if items != [] {
      CountNone(items[1..], select);
    }
  }

  /** The loop with every item selected. */
  function CallAll<T>(items: seq<T>, ok: nat -> bool): Run {
    CallEach(items, (x: T) => true, ok)
  }

  /** Every item issuing a call: the loop counts them all when every call
      comes back, and otherwise exits at the first that does not, having
      counted the items before it. */
  lemma CallAllSpec<T>(items: seq<T>, ok: nat -> bool)
    ensures var r := CallAll(items, ok);
      && (r.Finished? <==> forall k :: 0 <= k < |items| ==> ok(k))
      && (r.Finished? ==> r.count == |items|)
      && (r.Exited? ==> exists k :: 0 <= k < |items| && !ok(k) && r.count == k && forall j :: 0 <= j < k ==> ok(j))
  {
    var select := (x: T) => true;
    CallEachSpec(items, select, ok);
    CountAll(items, select);
    assert forall k :: 0 <= k < |items| ==> (FailsAt(items, select, ok, k) <==> !ok(k));
    var r := CallAll(items, ok);
    if r.Exited? {
      var k :| FailsAt(items, select, ok, k) && r.count == CountSelected(items[..k], select)
               && forall j :: 0 <= j < k ==> !FailsAt(items, select, ok, j);
      CountAll(items[..k], select);
    }
  }

  /** The entities of one field of every page, in order: `page.get(field, [])`. */
  function Flatten(lists: seq<Option<seq<Entity>>>): seq<Entity> {
    if lists == [] then [] else (if lists[0].Some? then lists[0].value else []) + Flatten(lists[1..])
  }

  function AssetsOf(pages: seq<Response>): seq<Entity> {
    Flatten(seq(|pages|, k requires 0 <= k < |pages| => pages[k].assets))
  }

  function SearchesOf(pages: seq<Response>): seq<Entity> {
    Flatten(seq(|pages|, k requires 0 <= k < |pages| => pages[k].searches))
  }

  /** The source search both scripts page through: `search_for_source(LIMIT,
      lastid, search)`, the next `lastid` read by `cursorOf`. */
  function SourceSearch(c: Client, limit: int, search: string, answer: nat -> Request -> Option<Response>,
                        cursorOf: Response -> string): Search {
    Search((lastid: string) => SearchForSource(c, limit, lastid, search), answer, cursorOf)
  }

  /** `get_lastid` reads `assets` only, and the source pages carry
      `searches`: every source request after the first repeats it. */
  lemma SourceRequestsRepeat(c: Client, limit: int, search: string, answer: nat -> Request -> Option<Response>, k: nat)
    requires forall j: nat, q: Request :: answer(j)(q).Some? ==> answer(j)(q).value.assets.None?
    ensures Cursor(SourceSearch(c, limit, search, answer, GetLastId), k) == ""
    ensures Answer(SourceSearch(c, limit, search, answer, GetLastId), k) == answer(k)(SearchForSource(c, limit, "", search))
  {
    StuckCursor(SourceSearch(c, limit, search, answer, GetLastId), k);
  }

  /** Reading the cursor off `searches` instead, each source request after
      the first carries the last id of the page before: its `offset`
      values are `0` and that id. */
  lemma SourceCursorAdvances(c: Client, limit: int, search: string, answer: nat -> Request -> Option<Response>, k: nat)
    requires '?' !in c.apiurl && '&' !in search
    requires Answer(SourceSearch(c, limit, search, answer, LastSearchId), k).Some?
    ensures var id := LastSearchId(Answer(SourceSearch(c, limit, search, answer, LastSearchId), k).value);
      && Cursor(SourceSearch(c, limit, search, answer, LastSearchId), k + 1) == id
      && (id != "" && '&' !in id ==>
            Values(Params(Render(SourceSearch(c, limit, search, answer, LastSearchId).request(id).url)), "offset") == ["0", id])
  {
    var id := LastSearchId(Answer(SourceSearch(c, limit, search, answer, LastSearchId), k).value);
    if '&' !in id {
      SearchForSourceParams(c, limit, id, search);
    }
  }
}
