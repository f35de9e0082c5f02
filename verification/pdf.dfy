/** bitdiscovery/pdf.py: the table `add_graph_page` assembles from the
    `name`/`value` rows of a report, with the `__missing__` and empty-name
    rows folded into one last row; the truncated, striped table rows; the
    heading and count `add_count_page` prints; and the title page's title.
    The FPDF drawing, the images and the percentages (floating point) are
    left out. */
module Pdf {
  import opened Py
  import opened Text
  import opened Decimal
  import opened Json

  // ---- row assembly ----

  /** One table row before rendering: `(str(row['name']), int(row['value']))`. */
  datatype Row = Row(name: string, value: int)

  /** The loop's variables: `missingrow`, `foundmissing`, `empty`, `rows`. */
  datatype Fold = Fold(missingrow: Entity, found: bool, empty: int, rows: seq<Row>)

  const MissingName: string := "__missing__"

  /** `int(row[key])` */
  function IntField(row: Entity, key: string): Result<int> {
    if key !in row then Raise(KeyError) else IntOf(row[key])
  }

  predicate IsMissingRow(row: Entity) {
    "name" in row && StrOf(row["name"]) == MissingName
  }

  predicate IsEmptyRow(row: Entity) {
    "name" in row && StrOf(row["name"]) == ""
  }

  /** One iteration: a `__missing__` row is remembered, an empty-name row's
      value replaces `empty`, any other row is appended. */
  function Step(st: Fold, row: Entity): Result<Fold> {
    if "name" !in row then Raise(KeyError)
    else if StrOf(row["name"]) == MissingName then Ok(st.(missingrow := row, found := true))
    else if StrOf(row["name"]) == "" then
      var e :- IntField(row, "value");
      Ok(st.(empty := e, found := true))
    else
      var v :- IntField(row, "value");
      Ok(st.(rows := st.rows + [Row(StrOf(row["name"]), v)]))
  }

  function FoldRows(data: seq<Entity>, st: Fold): Result<Fold> {
    if data == [] then Ok(st)
    else
      var next :- Step(st, data[0]);
      FoldRows(data[1..], next)
  }

  const Start: Fold := Fold(map[], false, 0, [])

  /** `missingrow['value'] + empty`: a number adds (a boolean counts as 0
      or 1), a string or `None` cannot be added to an `int`. */
  function AddEmpty(v: Scalar, empty: int): Result<int> {
    match v
    case Int(i) => Ok(i + empty)
    case Bool(b) => Ok((if b then 1 else 0) + empty)
    case Str(_) => Raise(TypeError)
    case Null => Raise(TypeError)
  }

  /** Lines 142-146, after the loop. */
  function Finish(st: Fold): Result<seq<Row>> {
    if st.found then
      if "name" !in st.missingrow || "value" !in st.missingrow then Raise(KeyError)
      else
        var v :- AddEmpty(st.missingrow["value"], st.empty);
        Ok(st.rows + [Row(StrOf(st.missingrow["name"]), v)])
    else if st.empty > 0 then Ok(st.rows + [Row(MissingName, st.empty)])
    else Ok(st.rows)
  }

  /** The rows of a non-empty `data`. */
  function Assemble(data: seq<Entity>): Result<seq<Row>> {
    var st :- FoldRows(data, Start);
    Finish(st)
  }

  // ---- the reference the assembly is checked against ----

  /** The rows named neither `__missing__` nor empty, in order, each with
      its value read as an `int`. */
  function OrdinaryRows(data: seq<Entity>): Result<seq<Row>> {
    if data == [] then Ok([])
    else
      var first :- OrdinaryRow(data[0]);
      var rest :- OrdinaryRows(data[1..]);
      Ok(first + rest)
  }

  /** One row's contribution: nothing for the two special names, the row
      itself otherwise; a missing name, or a missing or unreadable value
      where one is read, raises. */
  function OrdinaryRow(row: Entity): Result<seq<Row>> {
    if "name" !in row then Raise(KeyError)
    else if IsMissingRow(row) then Ok([])
    else
      var v :- IntField(row, "value");
      Ok(if IsEmptyRow(row) then [] else [Row(StrOf(row["name"]), v)])
  }

  lemma StepRows(st: Fold, row: Entity)
    ensures Step(st, row).Ok? <==> OrdinaryRow(row).Ok?
    ensures Step(st, row).Ok? ==> Step(st, row).value.rows == st.rows + OrdinaryRow(row).value
  {
  }

  /** The last element of `data` that `p` holds of. */
  function LastWith(data: seq<Entity>, p: Entity -> bool): (r: Option<Entity>)
    ensures r.Some? <==> exists i :: 0 <= i < |data| && p(data[i])
    ensures r.Some? ==> p(r.value) && r.value in data
  {
    if data == [] then None
    else
      var later := LastWith(data[1..], p);
      if later.Some? then later
      else if p(data[0]) then Some(data[0])
      else None
  }

  /** Nothing after the element found satisfies `p`. */
  lemma {:induction false} LastWithIsLast(data: seq<Entity>, p: Entity -> bool)
    ensures LastWith(data, p).Some? ==>
      exists i :: 0 <= i < |data| && data[i] == LastWith(data, p).value
                  && forall j :: i < j < |data| ==> !p(data[j])
  {
    if data != [] {
      var rest := data[1..];
      LastWithIsLast(rest, p);
      if LastWith(rest, p).Some? {
        var i :| 0 <= i < |rest| && rest[i] == LastWith(rest, p).value
                 && forall j :: i < j < |rest| ==> !p(rest[j]);
        assert data[i + 1] == rest[i];
        assert forall j :: i + 1 < j < |data| ==> data[j] == rest[j - 1];
      } else if p(data[0]) {
        assert forall j :: 0 < j < |data| ==> data[j] == rest[j - 1];
      }
    }
  }

  /** The loop appends exactly the ordinary rows, in order. */
  lemma {:induction false} FoldRowsRows(data: seq<Entity>, st: Fold)
    ensures FoldRows(data, st).Ok? ==>
      && OrdinaryRows(data).Ok?
      && FoldRows(data, st).value.rows == st.rows + OrdinaryRows(data).value
  {
    if data != [] && Step(st, data[0]).Ok? {
      var next := Step(st, data[0]).value;
      FoldRowsRows(data[1..], next);
      StepRows(st, data[0]);
    }
  }

  /** `foundmissing` is set by any `__missing__` or empty-name row. */
  lemma {:induction false} FoldRowsFound(data: seq<Entity>, st: Fold)
    ensures FoldRows(data, st).Ok? ==>
      FoldRows(data, st).value.found
        == (st.found || LastWith(data, IsMissingRow).Some? || LastWith(data, IsEmptyRow).Some?)
  {
    if data != [] && Step(st, data[0]).Ok? {
      FoldRowsFound(data[1..], Step(st, data[0]).value);
    }
  }

  /** `missingrow` is the last `__missing__` row. */
  lemma {:induction false} FoldRowsMissing(data: seq<Entity>, st: Fold)
    ensures FoldRows(data, st).Ok? ==>
      var m := LastWith(data, IsMissingRow);
      FoldRows(data, st).value.missingrow == if m.Some? then m.value else st.missingrow
  {
    if data != [] && Step(st, data[0]).Ok? {
      FoldRowsMissing(data[1..], Step(st, data[0]).value);
    }
  }

  /** `empty` is the value of the last empty-name row. */
  lemma {:induction false} FoldRowsEmpty(data: seq<Entity>, st: Fold)
    ensures FoldRows(data, st).Ok? ==>
      var e := LastWith(data, IsEmptyRow);
      && (e.Some? ==> IntField(e.value, "value") == Ok(FoldRows(data, st).value.empty))
      && (e.None? ==> FoldRows(data, st).value.empty == st.empty)
  {
    if data != [] && Step(st, data[0]).Ok? {
      FoldRowsEmpty(data[1..], Step(st, data[0]).value);
    }
  }

  /** The assembled table: the ordinary rows in input order, then, when a
      `__missing__` row came, one row named `__missing__` whose value is the
      last such row's value plus the last empty-name row's (0 if none). */
  lemma AssembleSpec(data: seq<Entity>)
    ensures Assemble(data).Ok? ==>
      var out := Assemble(data).value;
      var m := LastWith(data, IsMissingRow);
      var e := LastWith(data, IsEmptyRow);
      && OrdinaryRows(data).Ok?
      && (m.None? ==> out == OrdinaryRows(data).value)
      && (m.Some? ==>
            && |out| == |OrdinaryRows(data).value| + 1
            && out[..|out| - 1] == OrdinaryRows(data).value
            && out[|out| - 1].name == MissingName
            && "value" in m.value
            && exists v :: (if e.Some? then IntField(e.value, "value") == Ok(v) else v == 0)
                           && AddEmpty(m.value["value"], v) == Ok(out[|out| - 1].value))
  {
    if Assemble(data).Ok? {
      var st := FoldRows(data, Start).value;
      var out := Assemble(data).value;
      var m := LastWith(data, IsMissingRow);
      var e := LastWith(data, IsEmptyRow);
      FoldRowsRows(data, Start);
      FoldRowsFound(data, Start);
      FoldRowsMissing(data, Start);
      FoldRowsEmpty(data, Start);
      if m.Some? {
        FinishFound(st);
        assert IsMissingRow(m.value);
        assert (if e.Some? then IntField(e.value, "value") == Ok(st.empty) else st.empty == 0);
      } else {
        assert !st.found && st.empty == 0;
      }
    }
  }

  /** After a `__missing__` row, the table is the rows so far and one more
      row: the missing row's name with its value plus `empty`. */
  lemma FinishFound(st: Fold)
    requires st.found && Finish(st).Ok?
    ensures var out := Finish(st).value;
      && "name" in st.missingrow && "value" in st.missingrow
      && |out| == |st.rows| + 1
      && out[..|out| - 1] == st.rows
      && out[|out| - 1].name == StrOf(st.missingrow["name"])
      && AddEmpty(st.missingrow["value"], st.empty) == Ok(out[|out| - 1].value)
  {
    var out := Finish(st).value;
    assert out[..|out| - 1] == st.rows;
  }

  /** An empty-name row with no `__missing__` row sets `foundmissing` while
      `missingrow` is still `{}`: line 143 raises `KeyError`. */
  lemma EmptyWithoutMissingRaises(data: seq<Entity>)
    requires FoldRows(data, Start).Ok?
    requires LastWith(data, IsMissingRow).None? && LastWith(data, IsEmptyRow).Some?
    ensures Assemble(data) == Raise(KeyError)
  {
    FoldRowsFound(data, Start);
    FoldRowsMissing(data, Start);
  }

  /** `empty` only changes together with `foundmissing`, so lines 145-146
      never run: without `foundmissing` the rows are exactly the ordinary
      ones. */
  lemma LastBranchUnreachable(data: seq<Entity>)
    requires FoldRows(data, Start).Ok?
    ensures FoldRows(data, Start).value.empty != 0 ==> FoldRows(data, Start).value.found
    ensures !FoldRows(data, Start).value.found ==> Assemble(data) == OrdinaryRows(data)
  {
    FoldRowsRows(data, Start);
    FoldRowsFound(data, Start);
    FoldRowsEmpty(data, Start);
    var st := FoldRows(data, Start).value;
    if !st.found {
      assert st.empty == 0;
      assert Finish(st) == Ok(st.rows);
      assert st.rows == [] + OrdinaryRows(data).value == OrdinaryRows(data).value;
    }
  }

  // ---- rendering ----

  const NameWidth: nat := 75

  /** `name[:75] + '...' if len(name) > 75 else name` */
  function Truncate(name: string): (t: string)
    ensures |name| <= NameWidth ==> t == name
    ensures |name| > NameWidth ==> |t| == NameWidth + 3 && t[..NameWidth] == name[..NameWidth]
                                   && t[NameWidth..] == "..."
    ensures |t| <= NameWidth + 3
  {
    if |name| > NameWidth then name[..NameWidth] + "..." else name
  }

  /** A truncated name truncates to itself again. */
  lemma TruncateIdempotent(name: string)
    ensures Truncate(Truncate(name)) == Truncate(name)
  {
    var t := Truncate(name);
    if |name| > NameWidth {
      assert t[..NameWidth] + "..." == t;
    }
  }

  /** One `<tr>`: shaded (`bgcolor='#f0fafa'`) or not, the name and the
      count as the cells show them. The percent cell is left out. */
  datatype HtmlRow = HtmlRow(shaded: bool, name: string, count: string)

  datatype Table = NoData | Rows(rows: seq<HtmlRow>)

  function Render(i: nat, r: Row): HtmlRow {
    HtmlRow(i % 2 == 1, Truncate(r.name), IntToString(r.value))
  }

  function Stripe(rows: seq<Row>): (t: seq<HtmlRow>)
    ensures |t| == |rows|
    ensures forall i :: 0 <= i < |rows| ==> t[i] == Render(i, rows[i])
  {
    seq(|rows|, i requires 0 <= i < |rows| => Render(i, rows[i]))
  }

  /** The table of `add_graph_page`. Each row's percentage divides by
      `float(totalsize)`, so a zero total raises as soon as there is a row;
      the percentage itself is left out. */
  function GraphTable(data: seq<Entity>, totalsize: int): Result<Table> {
    if data == [] then Ok(NoData)
    else
      var rows :- Assemble(data);
      if rows != [] && totalsize == 0 then Raise(ZeroDivisionError)
      else Ok(Rows(Stripe(rows)))
  }

  /** The first row is plain and shading alternates row by row. */
  lemma StripeShading(rows: seq<Row>)
    ensures var t := Stripe(rows);
      && (t != [] ==> !t[0].shaded)
      && (forall i :: 0 <= i < |t| - 1 ==> t[i].shaded != t[i + 1].shaded)
  {
  }

  /** Every count cell parses back to its row's value. */
  lemma StripeCounts(rows: seq<Row>)
    ensures forall i :: 0 <= i < |rows| ==> ParseInt(Stripe(rows)[i].count) == Some(rows[i].value)
  {
    forall i | 0 <= i < |rows|
      ensures ParseInt(Stripe(rows)[i].count) == Some(rows[i].value)
    {
      ParseIntToString(rows[i].value);
    }
  }

  /** Without `__missing__` and empty-name rows every row is ordinary. */
  lemma {:induction false} OrdinaryRowsAll(data: seq<Entity>)
    requires LastWith(data, IsMissingRow).None? && LastWith(data, IsEmptyRow).None?
    ensures OrdinaryRows(data).Ok? ==> |OrdinaryRows(data).value| == |data|
  {
    if data != [] {
      assert !IsMissingRow(data[0]) && !IsEmptyRow(data[0]);
      assert forall i :: 0 <= i < |data[1..]| ==> data[1..][i] == data[i + 1];
      OrdinaryRowsAll(data[1..]);
    }
  }

  /** Non-empty data that assembles gives at least one row: a `__missing__`
      row adds one, an empty-name row without one raises, and otherwise every
      row is ordinary. */
  lemma AssembledNonEmpty(data: seq<Entity>)
    requires data != []
    ensures Assemble(data).Ok? ==> Assemble(data).value != []
  {
    if Assemble(data).Ok? {
      AssembleSpec(data);
      if LastWith(data, IsMissingRow).None? {
        if LastWith(data, IsEmptyRow).Some? {
          EmptyWithoutMissingRaises(data);
        } else {
          OrdinaryRowsAll(data);
        }
      }
    }
  }

  /** Only empty data gives "No data found."; otherwise the table has one
      striped row per assembled row, unless the total is zero, which raises
      `ZeroDivisionError` whenever the rows assemble. */
  lemma GraphTableSpec(data: seq<Entity>, totalsize: int)
    ensures GraphTable(data, totalsize) == Ok(NoData) <==> data == []
    ensures GraphTable(data, totalsize).Ok? && data != [] ==>
      && totalsize != 0
      && Assemble(data).Ok? && GraphTable(data, totalsize).value.rows == Stripe(Assemble(data).value)
    ensures data != [] && Assemble(data).Ok? ==>
      (GraphTable(data, totalsize) == Raise(ZeroDivisionError) <==> totalsize == 0)
    ensures data != [] && !Assemble(data).Ok? ==> GraphTable(data, totalsize) == Assemble(data).PropagateFailure()
  {
    if data != [] {
      AssembledNonEmpty(data);
    }
  }

  // ---- count page and title ----

  /** `str.capitalize()`: the first character upper-cased, the rest lower-cased. */
  function Capitalize(s: string): (c: string)
    ensures |c| == |s|
    ensures s != [] ==> c[0] == UpperChar(s[0])
    ensures forall i :: 1 <= i < |s| ==> c[i] == LowerChar(s[i])
  {
    if s == [] then [] else [UpperChar(s[0])] + Lower(s[1..])
  }

  /** Capitalizing twice is capitalizing once. */
  lemma CapitalizeIdempotent(s: string)
    ensures Capitalize(Capitalize(s)) == Capitalize(s)
  {
    var c := Capitalize(s);
    var cc := Capitalize(c);
    forall i | 0 <= i < |c|
      ensures cc[i] == c[i]
    {
      if i > 0 {
        assert LowerChar(LowerChar(s[i])) == LowerChar(s[i]);
      }
    }
  }

  /** Capitalizing changes nothing but letter case. */
  lemma CapitalizeKeepsLetters(s: string)
    ensures Lower(Capitalize(s)) == Lower(s)
  {
    var c := Capitalize(s);
    forall i | 0 <= i < |s|
      ensures LowerChar(c[i]) == LowerChar(s[i])
    {
      if i > 0 {
        assert LowerChar(LowerChar(s[i])) == LowerChar(s[i]);
      }
    }
  }

  /** The label under the count: the capitalized name, plural unless the
      count is exactly one. */
  function CountLabel(name: string, count: int): (text: string)
    ensures |text| == |name| + (if count == 1 then 0 else 1)
    ensures Lower(text) == Lower(name) + (if count == 1 then "" else "s")
    ensures name != [] ==> text[0] == UpperChar(name[0])
    ensures forall i :: 1 <= i < |name| ==> text[i] == LowerChar(name[i])
    ensures count != 1 ==> text[|name|] == 's'
  {
    CapitalizeKeepsLetters(name);
    var c := Capitalize(name);
    if count == 1 then c
    else
      assert Lower(c + "s") == Lower(c) + "s";
      c + "s"
  }

  /** `Total {Name}s`: the count page's heading, always plural. */
  function CountHeading(name: string): string {
    "Total " + Capitalize(name) + "s"
  }

  /** The singular label is the plural one without its final `s`, and the
      heading carries the plural label whatever the count. */
  lemma CountLabelPlural(name: string, count: int)
    requires count != 1
    ensures CountLabel(name, count) == CountLabel(name, 1) + "s"
    ensures CountHeading(name) == "Total " + CountLabel(name, count)
  {
  }

  /** Commas between groups of three digits, counted from the right. */
  function Group(digits: string): string
    decreases |digits|
  {
    if |digits| <= 3 then digits else Group(digits[..|digits| - 3]) + "," + digits[|digits| - 3..]
  }

  /** `"{:,}".format(count)` */
  function FormatCount(count: int): string {
    if count < 0 then "-" + Group(NatToString(-count)) else Group(NatToString(count))
  }

  function RemoveCommas(s: string): (r: string)
    ensures ',' !in r
  {
    if s == [] then [] else (if s[0] == ',' then [] else [s[0]]) + RemoveCommas(s[1..])
  }

  lemma {:induction false} RemoveCommasAppend(a: string, b: string)
    ensures RemoveCommas(a + b) == RemoveCommas(a) + RemoveCommas(b)
  {
    if a != [] {
      RemoveCommasAppend(a[1..], b);
      assert (a + b)[1..] == a[1..] + b;
      assert (a + b)[0] == a[0];
    } else {
      assert a + b == b;
    }
  }

  lemma {:induction false} RemoveCommasNone(s: string)
    requires ',' !in s
    ensures RemoveCommas(s) == s
  {
    if s != [] {
      RemoveCommasNone(s[1..]);
    }
  }

  /** Dropping the commas gives the digits back. */
  lemma {:induction false} GroupRemoveCommas(digits: string)
    requires ',' !in digits
    ensures RemoveCommas(Group(digits)) == digits
    decreases |digits|
  {
    if |digits| <= 3 {
      RemoveCommasNone(digits);
    } else {
      var head, tail := digits[..|digits| - 3], digits[|digits| - 3..];
      assert head + tail == digits;
      assert ',' !in head && ',' !in tail;
      GroupRemoveCommas(head);
      RemoveCommasNone(tail);
      RemoveCommasGlue(Group(head), tail);
    }
  }

  lemma RemoveCommasGlue(a: string, b: string)
    ensures RemoveCommas(a + "," + b) == RemoveCommas(a) + RemoveCommas(b)
  {
    RemoveCommasComma();
    RemoveCommasAppend(a, [',']);
    RemoveCommasAppend(a + [','], b);
  }

  lemma RemoveCommasComma()
    ensures RemoveCommas([',']) == []
  {
    assert [','][1..] == [];
  }

  /** Every comma-separated group holds three digits, except the first,
      which holds one to three. */
  lemma {:induction false} GroupSizes(digits: string)
    requires digits != [] && ',' !in digits
    ensures var gs := Split(Group(digits), ',');
      && 1 <= |gs[0]| <= 3
      && (forall k :: 1 <= k < |gs| ==> |gs[k]| == 3)
      && Join(gs, ',') == Group(digits)
    decreases |digits|
  {
    var g := Group(digits);
    if |digits| <= 3 {
      SplitNone(digits);
    } else {
      var head, tail := digits[..|digits| - 3], digits[|digits| - 3..];
      GroupSizes(head);
      SplitAt(Group(head), ',', tail);
      SplitNone(tail);
      assert g == Group(head) + [','] + tail;
    }
    JoinSplit(g, ',');
  }

  lemma SplitNone(s: string)
    requires ',' !in s
    ensures Split(s, ',') == [s]
  {
  }

  /** The count reads back: without its commas it is `str(count)`. */
  lemma FormatCountDigits(count: int)
    ensures RemoveCommas(FormatCount(count)) == IntToString(count)
  {
    if count < 0 {
      GroupRemoveCommas(NatToString(-count));
      RemoveCommasAppend("-", Group(NatToString(-count)));
      assert RemoveCommas("-") == "-";
    } else {
      GroupRemoveCommas(NatToString(count));
    }
  }

  /** `str(self.title)[:20]` */
  function TitleText(title: string): (t: string)
    ensures |t| == Min(|title|, 20) && t <= title
  {
    Slice(title, 0, 20)
  }
}
