/**
 * The admin registrations page: the search over the fetched list, the
 * short id shown in the table, and the CSV export. The export joins the
 * cells with ',' and the lines with '\n' and quotes nothing.
 */
module AdminRegistrations {
  import opened Wrappers
  import opened Text
  import opened Seqs

  datatype Month = Jan | Feb | Mar | Apr | May | Jun | Jul | Aug | Sep | Oct | Nov | Dec

  /** A calendar date in the browser's time zone: what `new Date(createdAt)` denotes here. */
  datatype CalendarDate = CalendarDate(year: nat, month: Month, day: nat)

  /** A registration as the page receives it; `_id` is a string, `institution` may be absent. */
  datatype Entry = Entry(
    id: string,
    fullName: string,
    email: string,
    phone: string,
    institution: Option<string>,
    address: string,
    city: string,
    state: string,
    zipCode: string,
    createdAt: CalendarDate)

  function MonthAbbrev(m: Month): string {
    match m
    case Jan => "Jan" case Feb => "Feb" case Mar => "Mar" case Apr => "Apr"
    case May => "May" case Jun => "Jun" case Jul => "Jul" case Aug => "Aug"
    case Sep => "Sep" case Oct => "Oct" case Nov => "Nov" case Dec => "Dec"
  }

  /** `yyyy`: the year with at least four digits. */
  function YearText(year: nat): (t: string)
    ensures |t| >= 4
    ensures forall i :: 0 <= i < |t| ==> IsDigit(t[i])
  {
    var digits := DecimalString(year);
    if |digits| >= 4 then digits else seq(4 - |digits|, _ => '0') + digits
  }

  /** The date cell: `format(date, 'MMM d, yyyy')`, as in "Apr 10, 2025". */
  function FormatDate(d: CalendarDate): string {
    MonthAbbrev(d.month) + " " + DecimalString(d.day) + ", " + YearText(d.year)
  }

  const Headers: seq<string> := ["ID", "Name", "Email", "Institution", "Phone", "Date"]

  /** `reg.institution || ''`. */
  function InstitutionCell(institution: Option<string>): string {
    if institution.Some? then institution.value else ""
  }

  /** The cells of one registration's line, in the order of the headers. */
  function Cells(r: Entry): (cells: seq<string>)
    ensures |cells| == |Headers|
  {
    [r.id, r.fullName, r.email, InstitutionCell(r.institution), r.phone, FormatDate(r.createdAt)]
  }

  /** `row.join(',')`. */
  function Line(r: Entry): string {
    Join(Cells(r), ",")
  }

  function Lines(regs: seq<Entry>): (lines: seq<string>)
    ensures |lines| == |regs|
    ensures forall k :: 0 <= k < |regs| ==> lines[k] == Line(regs[k])
    decreases |regs|
  {
    if regs == [] then [] else [Line(regs[0])] + Lines(regs[1..])
  }

  /** `handleExportCSV`: the header line, then one line per registration in list order, joined with '\n'. */
  function ExportCsv(regs: seq<Entry>): string {
    Join([Join(Headers, ",")] + Lines(regs), "\n")
  }

  /** The text cells hold no line break (the date cell never does). */
  predicate SingleLine(r: Entry) {
    && '\n' !in r.id && '\n' !in r.fullName && '\n' !in r.email
    && '\n' !in InstitutionCell(r.institution) && '\n' !in r.phone
  }

  /** The text cells hold no comma (the date cell always does). */
  predicate CommaFree(r: Entry) {
    && ',' !in r.id && ',' !in r.fullName && ',' !in r.email
    && ',' !in InstitutionCell(r.institution) && ',' !in r.phone
  }

  lemma DigitsAvoid(s: string, c: char)
    requires forall i :: 0 <= i < |s| ==> IsDigit(s[i])
    requires !IsDigit(c)
    ensures c !in s
  {
  }

  lemma MonthAvoids(m: Month, c: char)
    requires c == ',' || c == '\n'
    ensures c !in MonthAbbrev(m)
  {
  }

  lemma DateSingleLine(d: CalendarDate)
    ensures '\n' !in FormatDate(d)
  {
    MonthAvoids(d.month, '\n');
    DigitsAvoid(DecimalString(d.day), '\n');
    DigitsAvoid(YearText(d.year), '\n');
  }

  /**
   * When no text cell holds a line break, splitting the export at '\n'
   * gives back the header line and then every registration's line, in
   * order: one line per registration.
   */
  lemma {:induction false} ExportLines(regs: seq<Entry>)
    requires forall k :: 0 <= k < |regs| ==> SingleLine(regs[k])
    ensures Split(ExportCsv(regs), '\n') == [Join(Headers, ",")] + Lines(regs)
  {
    var parts := [Join(Headers, ",")] + Lines(regs);
    JoinAvoids(Headers, ",", '\n');
    forall k | 0 <= k < |parts| ensures '\n' !in parts[k] {
      if k > 0 {
        LineSingle(regs[k - 1]);
      }
    }
    SplitJoin(parts, '\n');
  }

  /** A registration without line breaks in its cells makes one line. */
  lemma LineSingle(r: Entry)
    requires SingleLine(r)
    ensures '\n' !in Line(r)
  {
    DateSingleLine(r.createdAt);
    JoinAvoids(Cells(r), ",", '\n');
  }

  /** The header line splits into its six column names. */
  lemma HeaderColumns()
    ensures Split(Join(Headers, ","), ',') == Headers
  {
    SplitJoin(Headers, ',');
  }

  /**
   * The date cell holds a comma, and nothing is quoted: even a line whose
   * text cells are comma-free splits into seven fields under six headers,
   * the date falling apart into "MMM d" and " yyyy".
   */
  lemma DateSplitsLine(r: Entry)
    requires CommaFree(r)
    ensures Split(Line(r), ',') ==
      Cells(r)[..5] + [MonthAbbrev(r.createdAt.month) + " " + DecimalString(r.createdAt.day), " " + YearText(r.createdAt.year)]
    ensures |Split(Line(r), ',')| == |Headers| + 1
  {
    var d := r.createdAt;
    var before := MonthAbbrev(d.month) + " " + DecimalString(d.day);
    var after := " " + YearText(d.year);
    var cells := Cells(r);
    assert FormatDate(d) == before + [','] + after;
    assert cells == cells[..5] + [before + [','] + after];
    JoinSeparatorInLast(cells[..5], before, after, ',');
    MonthAvoids(d.month, ',');
    DigitsAvoid(DecimalString(d.day), ',');
    DigitsAvoid(YearText(d.year), ',');
    var fields := cells[..5] + [before, after];
    forall k | 0 <= k < |fields| ensures ',' !in fields[k] {
    }
    SplitJoin(fields, ',');
  }

  /**
   * The search: the query, ignoring case, occurs in the name or the email,
   * or in the institution when it is present and not empty.
   */
  predicate Matches(r: Entry, query: string) {
    || IncludesIgnoringCase(r.fullName, query)
    || IncludesIgnoringCase(r.email, query)
    || (r.institution.Some? && r.institution.value != "" && IncludesIgnoringCase(r.institution.value, query))
  }

  /** `filteredRegistrations`: exactly the matching registrations, in their original order. */
  function FilterRegistrations(regs: seq<Entry>, query: string): (r: seq<Entry>)
    ensures SubsequenceOf(r, regs)
    ensures forall e :: e in r <==> e in regs && Matches(e, query)
  {
    var p := e => Matches(e, query);
    FilterIsSubsequence(regs, p);
    forall e ensures e in Filter(regs, p) <==> e in regs && p(e) {
      FilterMember(regs, p, e);
    }
    Filter(regs, p)
  }

  /** An empty search shows every registration. */
  lemma EmptyQueryKeepsAll(regs: seq<Entry>)
    ensures FilterRegistrations(regs, "") == regs
  {
    var p := e => Matches(e, "");
    forall k | 0 <= k < |regs| ensures p(regs[k]) {
      EmptyQueryIncluded(regs[k].fullName);
    }
    FilterAll(regs, p);
  }

  /** `_id.slice(-6)`: the last six characters, or the whole id when it is shorter. */
  function ShortId(id: string): (s: string)
    ensures |s| == if |id| < 6 then |id| else 6
    ensures s == id[|id| - |s|..]
  {
    if |id| <= 6 then id else id[|id| - 6..]
  }
}
