/**
 * The admin enquiry table (`src/components/admin/EnquiryDataTable.tsx`): the
 * search and date filter over the rows it was given, the selection of row
 * ids, the CSV export and the bulk delete's effect on the selection. Dates
 * are milliseconds since the epoch; the clock is the parameter `now`.
 */
module EnquiryTable {
  import opened Wrappers
  import opened Text
  import opened Seqs
  import opened JsNumber
  import opened Responses
  import opened EnquiryStore
  import opened EnquiryActions

  // ---- search and date filter ----

  /** `1000 * 60 * 60 * 24`. */
  const DayMs := 86400000

  const AllTime := "all"
  const LastWeek := "7days"
  const LastMonth := "30days"

  function Abs(x: int): nat {
    if x < 0 then -x else x
  }

  /** `Math.ceil(a / b)` for natural `a` and positive `b`: the least `q` with `a <= q * b`. */
  function CeilDiv(a: nat, b: nat): (q: nat)
    requires b > 0
    ensures a <= q * b
    ensures q == 0 || (q - 1) * b < a
  {
    var q := (a + b - 1) / b;
    assert q * b <= a + b - 1 < q * b + b;
    assert (q - 1) * b == q * b - b;
    q
  }

  /** Multiplying both sides by a positive factor keeps an inequality. */
  lemma MulMono(x: int, y: int, b: nat)
    requires x <= y
    ensures x * b <= y * b
  {
  }

  /** A whole number of days is within `n` days exactly when the milliseconds are. */
  lemma CeilDivWithin(a: nat, n: nat, b: nat)
    requires b > 0
    ensures CeilDiv(a, b) <= n <==> a <= n * b
  {
    var q := CeilDiv(a, b);
    if q <= n {
      MulMono(q, n, b);
    } else {
      MulMono(n, q - 1, b);
    }
  }

  /** `diffDays`: whole days between `now` and the row's creation time, rounded up. */
  function DiffDays(now: int, createdAt: int): nat {
    CeilDiv(Abs(now - createdAt), DayMs)
  }

  /** The date filter: `'7days'` and `'30days'` bound the age; any other value lets every row through. */
  function MatchesDate(filterDate: string, now: int, createdAt: int): (r: bool)
    ensures filterDate == LastWeek ==> (r <==> Abs(now - createdAt) <= 7 * DayMs)
    ensures filterDate == LastMonth ==> (r <==> Abs(now - createdAt) <= 30 * DayMs)
    ensures filterDate != LastWeek && filterDate != LastMonth ==> r
  {
    CeilDivWithin(Abs(now - createdAt), 7, DayMs);
    CeilDivWithin(Abs(now - createdAt), 30, DayMs);
    if filterDate == AllTime then true
    else if filterDate == LastWeek then DiffDays(now, createdAt) <= 7
    else if filterDate == LastMonth then DiffDays(now, createdAt) <= 30
    else true
  }

  /** `(enq.course_interest || '')`. */
  function CourseText(c: Option<string>): string {
    c.GetOr("")
  }

  /** The search: name and course case-insensitively, phone as typed. */
  predicate MatchesSearch(e: Enquiry, term: string) {
    var needle := Lower(term);
    Contains(Lower(e.name), needle) || Contains(e.phone, needle) || Contains(Lower(CourseText(e.courseInterest)), needle)
  }

  /** The callback given to `initialEnquiries.filter`. */
  function KeepRow(term: string, filterDate: string, now: int): Enquiry -> bool {
    (e: Enquiry) => MatchesSearch(e, term) && MatchesDate(filterDate, now, e.createdAt)
  }

  /** `filteredEnquiries`. */
  function FilteredEnquiries(rows: seq<Enquiry>, term: string, filterDate: string, now: int): (r: seq<Enquiry>)
    ensures IsSubseq(r, rows)
    ensures |r| <= |rows|
    ensures forall i :: 0 <= i < |r| ==>
              r[i] in rows && MatchesSearch(r[i], term) && MatchesDate(filterDate, now, r[i].createdAt)
    ensures forall i :: 0 <= i < |rows| && MatchesSearch(rows[i], term) && MatchesDate(filterDate, now, rows[i].createdAt) ==>
              rows[i] in r
    ensures forall e :: multiset(r)[e] ==
              if MatchesSearch(e, term) && MatchesDate(filterDate, now, e.createdAt) then multiset(rows)[e] else 0
  {
    FilterIsSubseq(KeepRow(term, filterDate, now), rows);
    FilterCounts(KeepRow(term, filterDate, now), rows);
    Filter(KeepRow(term, filterDate, now), rows)
  }

  /** An empty search over all time shows every row. */
  lemma EmptySearchShowsAll(rows: seq<Enquiry>, now: int)
    ensures FilteredEnquiries(rows, "", AllTime, now) == rows
  {
    forall i | 0 <= i < |rows| ensures KeepRow("", AllTime, now)(rows[i]) {
      ContainsEmpty(Lower(rows[i].name));
    }
    FilterKeepsAll(KeepRow("", AllTime, now), rows);
  }

  /** The search term's letter case does not matter. */
  lemma SearchIgnoresCase(e: Enquiry, term: string)
    ensures MatchesSearch(e, Lower(term)) == MatchesSearch(e, term)
  {
    LowerIdempotent(term);
  }

  /** Typing more characters only narrows the view: the new rows are carved out of the old ones. */
  lemma LongerSearchNarrows(rows: seq<Enquiry>, t: string, u: string, filterDate: string, now: int)
    ensures FilteredEnquiries(rows, t + u, filterDate, now)
            == Filter(KeepRow(t + u, filterDate, now), FilteredEnquiries(rows, t, filterDate, now))
    ensures IsSubseq(FilteredEnquiries(rows, t + u, filterDate, now), FilteredEnquiries(rows, t, filterDate, now))
  {
    LowerConcat(t, u);
    forall i | 0 <= i < |rows| && KeepRow(t + u, filterDate, now)(rows[i])
      ensures KeepRow(t, filterDate, now)(rows[i])
    {
      var e := rows[i];
      if Contains(Lower(e.name), Lower(t) + Lower(u)) {
        ContainsPrefixOfNeedle(Lower(e.name), Lower(t), Lower(u));
      } else if Contains(e.phone, Lower(t) + Lower(u)) {
        ContainsPrefixOfNeedle(e.phone, Lower(t), Lower(u));
      } else {
        ContainsPrefixOfNeedle(Lower(CourseText(e.courseInterest)), Lower(t), Lower(u));
      }
    }
    FilterStronger(KeepRow(t, filterDate, now), KeepRow(t + u, filterDate, now), rows);
    FilterIsSubseq(KeepRow(t + u, filterDate, now), FilteredEnquiries(rows, t, filterDate, now));
  }

  /** The last-7-days view is carved out of the last-30-days view. */
  lemma WeekWithinMonth(rows: seq<Enquiry>, term: string, now: int)
    ensures FilteredEnquiries(rows, term, LastWeek, now)
            == Filter(KeepRow(term, LastWeek, now), FilteredEnquiries(rows, term, LastMonth, now))
  {
    FilterStronger(KeepRow(term, LastMonth, now), KeepRow(term, LastWeek, now), rows);
  }

  // ---- selection ----

  /** The ids of some rows, in order. */
  function RowIds(rows: seq<Enquiry>): (r: seq<int>)
    ensures |r| == |rows|
    ensures forall i :: 0 <= i < |rows| ==> r[i] == rows[i].id
    decreases |rows|
  {
    if |rows| == 0 then [] else [rows[0].id] + RowIds(rows[1..])
  }

  /** `rows.map(e => e.id.toString())`. */
  function IdsOf(rows: seq<Enquiry>): (r: seq<string>)
    ensures |r| == |rows|
    ensures forall i :: 0 <= i < |rows| ==> r[i] == IntToString(rows[i].id)
  {
    Rendered(RowIds(rows))
  }

  /** The header checkbox shows "all selected": the lengths agree and the view is non-empty. */
  predicate AllSelected(selected: seq<string>, filtered: seq<Enquiry>) {
    |selected| == |filtered| && |filtered| > 0
  }

  /** `toggleSelectAll`. Only the lengths are compared, not the ids themselves. */
  function ToggleSelectAll(selected: seq<string>, filtered: seq<Enquiry>): (r: seq<string>)
    ensures AllSelected(selected, filtered) ==> r == []
    ensures !AllSelected(selected, filtered) ==>
              |r| == |filtered| && forall i :: 0 <= i < |filtered| ==> r[i] == IntToString(filtered[i].id)
  {
    if AllSelected(selected, filtered) then [] else IdsOf(filtered)
  }

  /** Over a non-empty view the header checkbox alternates: a click turns "all selected" on or off. */
  lemma SelectAllAlternates(selected: seq<string>, filtered: seq<Enquiry>)
    requires |filtered| > 0
    ensures AllSelected(ToggleSelectAll(selected, filtered), filtered) <==> !AllSelected(selected, filtered)
    ensures ToggleSelectAll(ToggleSelectAll(selected, filtered), filtered)
            == if AllSelected(selected, filtered) then IdsOf(filtered) else []
  {
  }

  /** Any selection as long as the view counts as complete, even one naming none of the visible rows. */
  lemma SelectAllComparesLengthsOnly(selected: seq<string>, filtered: seq<Enquiry>)
    requires |selected| == |filtered| > 0
    requires forall i, j :: 0 <= i < |selected| && 0 <= j < |filtered| ==> selected[i] != IntToString(filtered[j].id)
    ensures ToggleSelectAll(selected, filtered) == []
    ensures forall j :: 0 <= j < |filtered| ==> IntToString(filtered[j].id) !in ToggleSelectAll(selected, filtered)
  {
  }

  /** The predicate `prevId !== id`. */
  function Other(id: string): string -> bool {
    (x: string) => x != id
  }

  /** `toggleSelectRow(id)`: remove every copy of a selected id, append an unselected one. */
  function ToggleSelectRow(selected: seq<string>, id: string): (r: seq<string>)
    ensures forall x :: x in r <==> (x in selected) != (x == id)
    ensures id in selected ==> IsSubseq(r, selected) && |r| < |selected|
    ensures id !in selected ==> r == selected + [id]
    ensures Distinct(selected) ==> Distinct(r)
  {
    if id in selected then
      FilterIsSubseq(Other(id), selected);
      assert Distinct(selected) ==> Distinct(Filter(Other(id), selected)) by {
        if Distinct(selected) {
          FilterKeepsDistinct(Other(id), selected);
        }
      }
      var r := Filter(Other(id), selected);
      assert id !in r;
      var i :| 0 <= i < |selected| && selected[i] == id;
      FilterDrops(Other(id), selected, i);
      r
    else
      assert Distinct(selected) ==> Distinct(selected + [id]) by {
        if Distinct(selected) {
          forall i, j | 0 <= i < j < |selected + [id]| ensures (selected + [id])[i] != (selected + [id])[j] {
            assert (selected + [id])[i] == selected[i];
          }
        }
      }
      selected + [id]
  }

  /** Toggling one row twice leaves the same set of ids selected. */
  lemma ToggleRowTwiceKeepsSet(selected: seq<string>, id: string)
    ensures forall x :: x in ToggleSelectRow(ToggleSelectRow(selected, id), id) <==> x in selected
  {
  }

  /** Starting from an unselected row, toggling it twice restores the exact selection. */
  lemma ToggleRowTwiceRestores(selected: seq<string>, id: string)
    requires id !in selected
    ensures ToggleSelectRow(ToggleSelectRow(selected, id), id) == selected
  {
    var s1 := selected + [id];
    assert ToggleSelectRow(selected, id) == s1;
    FilterConcat(Other(id), selected, [id]);
    FilterKeepsAll(Other(id), selected);
    assert Filter(Other(id), [id]) == [] by {
      assert [id][1..] == [];
    }
    assert Filter(Other(id), s1) == selected;
  }

  // ---- CSV ----

  const Header := "Date,Name,Phone,Course Interest,Status"

  /** `` `"${s}"` ``: quotes around the text, nothing escaped. */
  function Quote(s: string): string {
    "\"" + s + "\""
  }

  /** The template literal's rendering of the course column: a null course prints as `null`. */
  function CourseCell(c: Option<string>): string {
    match c
    case None => "null"
    case Some(s) => s
  }

  /** The five cells of a row: the formatted date (`fmtDate` is `toLocaleDateString('en-GB')`) and four quoted texts. */
  function CsvCells(e: Enquiry, fmtDate: int -> string): seq<string> {
    [fmtDate(e.createdAt), Quote(e.name), Quote(e.phone), Quote(CourseCell(e.courseInterest)), Quote(e.status)]
  }

  function CsvLine(e: Enquiry, fmtDate: int -> string): string {
    Join(CsvCells(e, fmtDate), ",")
  }

  function CsvLines(rows: seq<Enquiry>, fmtDate: int -> string): (r: seq<string>)
    ensures |r| == |rows|
    ensures forall i :: 0 <= i < |rows| ==> r[i] == CsvLine(rows[i], fmtDate)
    decreases |rows|
  {
    if |rows| == 0 then [] else [CsvLine(rows[0], fmtDate)] + CsvLines(rows[1..], fmtDate)
  }

  /** `csvContent`: the header line, then one line per row, joined with newlines. */
  function Csv(rows: seq<Enquiry>, fmtDate: int -> string): (r: string)
    // The header line comes first, alone when there are no rows ...
    ensures |rows| == 0 ==> r == Header
    // ... and otherwise followed by a line break and the first row's line.
    ensures |rows| > 0 ==> IsPrefix(Header + "\n" + CsvLine(rows[0], fmtDate), r)
  {
    var lines := [Header] + CsvLines(rows, fmtDate);
    if |rows| == 0 then
      Join(lines, "\n")
    else
      var tail := Join(lines[1..], "\n");
      var first := CsvLine(rows[0], fmtDate);
      assert lines[1..] == CsvLines(rows, fmtDate);
      assert IsPrefix(first, tail) by {
        var more := lines[2..];
        if |more| > 0 {
          assert lines[1..][1..] == more;
          assert tail == first + "\n" + Join(more, "\n");
          assert tail[..|first|] == first;
        }
      }
      assert Join(lines, "\n") == Header + "\n" + tail;
      assert (Header + "\n" + tail)[..|Header + "\n" + first|] == Header + "\n" + first;
      Join(lines, "\n")
  }

  /** No cell of the row holds the character `c` (the quotes themselves never do unless `c` is a quote). */
  predicate CellsAvoid(e: Enquiry, fmtDate: int -> string, c: char) {
    c !in fmtDate(e.createdAt) && c !in e.name && c !in e.phone && c !in CourseCell(e.courseInterest) && c !in e.status
  }

  lemma QuoteAvoids(s: string, c: char)
    requires c != '"' && c !in s
    ensures c !in Quote(s)
  {
  }

  /** A row whose texts hold no comma splits back into its five cells. */
  lemma CsvLineSplits(e: Enquiry, fmtDate: int -> string)
    requires CellsAvoid(e, fmtDate, ',')
    ensures Split(CsvLine(e, fmtDate), ',') == CsvCells(e, fmtDate)
  {
    var cells := CsvCells(e, fmtDate);
    QuoteAvoids(e.name, ',');
    QuoteAvoids(e.phone, ',');
    QuoteAvoids(CourseCell(e.courseInterest), ',');
    QuoteAvoids(e.status, ',');
    SplitJoin(cells, ',');
  }

  lemma HeaderOneLine()
    ensures '\n' !in Header
  {
  }

  /** A row whose texts hold no line break renders to a single line. */
  lemma CsvLineAvoidsNewline(e: Enquiry, fmtDate: int -> string)
    requires CellsAvoid(e, fmtDate, '\n')
    ensures '\n' !in CsvLine(e, fmtDate)
  {
    QuoteAvoids(e.name, '\n');
    QuoteAvoids(e.phone, '\n');
    QuoteAvoids(CourseCell(e.courseInterest), '\n');
    QuoteAvoids(e.status, '\n');
    JoinAvoids(CsvCells(e, fmtDate), ",", '\n');
  }

  /** When no text holds a line break, no line of the file does either. */
  lemma LinesAvoidNewline(rows: seq<Enquiry>, fmtDate: int -> string)
    requires forall i :: 0 <= i < |rows| ==> CellsAvoid(rows[i], fmtDate, '\n')
    ensures forall k :: 0 <= k < |[Header] + CsvLines(rows, fmtDate)| ==> '\n' !in ([Header] + CsvLines(rows, fmtDate))[k]
  {
    var lines := [Header] + CsvLines(rows, fmtDate);
    forall k | 0 <= k < |lines| ensures '\n' !in lines[k] {
      if k == 0 {
        HeaderOneLine();
      } else {
        CsvLineAvoidsNewline(rows[k - 1], fmtDate);
      }
    }
  }

  /** When no text holds a line break, the file splits back into the header and one line per row. */
  lemma CsvSplitsIntoLines(rows: seq<Enquiry>, fmtDate: int -> string)
    requires forall i :: 0 <= i < |rows| ==> CellsAvoid(rows[i], fmtDate, '\n')
    ensures Split(Csv(rows, fmtDate), '\n') == [Header] + CsvLines(rows, fmtDate)
  {
    LinesAvoidNewline(rows, fmtDate);
    SplitJoin([Header] + CsvLines(rows, fmtDate), '\n');
  }

  /** Section 2 (rule 7) of RFC 4180: a quote inside a quoted field is written twice. */
  function DoubleQuotes(s: string): (r: string)
    ensures |r| >= |s|
    decreases |s|
  {
    if |s| == 0 then ""
    else (if s[0] == '"' then "\"\"" else [s[0]]) + DoubleQuotes(s[1..])
  }

  /** A field escaped as RFC 4180 requires. */
  function RfcField(s: string): string {
    "\"" + DoubleQuotes(s) + "\""
  }

  /** Text without quotes is left as it is by the escaping. */
  lemma {:induction false} DoubleQuotesNoQuote(s: string)
    requires '"' !in s
    ensures DoubleQuotes(s) == s
    decreases |s|
  {
    if |s| > 0 {
      DoubleQuotesNoQuote(s[1..]);
      assert [s[0]] + s[1..] == s;
    }
  }

  /** Text with a quote grows under the escaping. */
  lemma {:induction false} DoubleQuotesGrows(s: string)
    requires '"' in s
    ensures |DoubleQuotes(s)| > |s|
    decreases |s|
  {
    if s[0] != '"' {
      DoubleQuotesGrows(s[1..]);
    }
  }

  /** The export's quoting agrees with RFC 4180 exactly on the texts that hold no quote. */
  lemma QuoteIsRfcIffNoQuote(s: string)
    ensures Quote(s) == RfcField(s) <==> '"' !in s
  {
    if '"' in s {
      DoubleQuotesGrows(s);
      assert |RfcField(s)| > |Quote(s)|;
    } else {
      DoubleQuotesNoQuote(s);
    }
  }

  // ---- export of the selection and bulk delete ----

  /** `selectedIds.includes(e.id.toString())`. */
  function IsSelected(selected: seq<string>): Enquiry -> bool {
    (e: Enquiry) => IntToString(e.id) in selected
  }

  /** The "selected" export: the chosen rows taken from all rows, whatever the current view hides. */
  function SelectedExport(initial: seq<Enquiry>, selected: seq<string>): (r: seq<Enquiry>)
    ensures IsSubseq(r, initial)
    ensures forall i :: 0 <= i < |r| ==> r[i] in initial && IntToString(r[i].id) in selected
    ensures forall i :: 0 <= i < |initial| && IntToString(initial[i].id) in selected ==> initial[i] in r
    ensures forall e :: multiset(r)[e] == if IntToString(e.id) in selected then multiset(initial)[e] else 0
  {
    FilterIsSubseq(IsSelected(selected), initial);
    FilterCounts(IsSelected(selected), initial);
    Filter(IsSelected(selected), initial)
  }

  /** Row ids are unique among the rows the table received. */
  predicate UniqueIds(rows: seq<Enquiry>) {
    forall i, j :: 0 <= i < |rows| && 0 <= j < |rows| && rows[i].id == rows[j].id ==> i == j
  }

  /** Selecting all of a view and exporting the selection gives exactly the view. */
  lemma ExportAfterSelectAll(initial: seq<Enquiry>, term: string, filterDate: string, now: int)
    requires UniqueIds(initial)
    ensures var view := FilteredEnquiries(initial, term, filterDate, now);
            SelectedExport(initial, IdsOf(view)) == view
  {
    var keep := KeepRow(term, filterDate, now);
    var view := FilteredEnquiries(initial, term, filterDate, now);
    var ids := IdsOf(view);
    forall i | 0 <= i < |initial| ensures IsSelected(ids)(initial[i]) == keep(initial[i]) {
      var e := initial[i];
      if keep(e) {
        assert e in view;
        var j :| 0 <= j < |view| && view[j] == e;
        assert ids[j] == IntToString(e.id);
      }
      if IntToString(e.id) in ids {
        var j :| 0 <= j < |ids| && ids[j] == IntToString(e.id);
        IntToStringInjective(view[j].id, e.id);
        var k :| 0 <= k < |initial| && initial[k] == view[j];
        assert k == i;
      }
    }
    FilterExt(IsSelected(ids), keep, initial);
  }

  /** `handleBulkDelete`'s effect on the selection: cleared after a successful delete, kept otherwise. */
  function AfterBulkDelete(selected: seq<string>, confirmed: bool, reply: Option<Reply>): (r: seq<string>)
    requires confirmed <==> reply.Some?
    ensures r == [] || r == selected
    ensures r == [] <==> |selected| == 0 || (confirmed && reply.value.Succeeded())
  {
    if confirmed && reply.value.Succeeded() then [] else selected
  }

  /**
   * Selecting a non-empty view and confirming the delete (with every statement
   * succeeding) removes exactly the view's rows and clears the selection.
   */
  lemma BulkDeleteOfView(db: Db, view: seq<Enquiry>)
    requires |view| > 0
    ensures var out := DeleteEnquiries(db, IdsOf(view), None);
            && out.reply == Counted(|view|)
            && (forall k :: k in out.store.rows <==> k in db.rows && k !in RowIds(view))
            && AfterBulkDelete(IdsOf(view), true, Some(out.reply)) == []
  {
    ParseIdsOfRendered(RowIds(view));
  }
}
