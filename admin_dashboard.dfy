/**
 * The admin dashboard: the totals of the two fetched collections, the
 * newest registrations (sorted newest first, then cut to nine), and the
 * colour classes of its widgets.
 */
module AdminDashboard {
  import opened Seqs

  /** A registration as the dashboard receives it; `createdAt` in milliseconds since the epoch. */
  datatype Entry = Entry(id: string, fullName: string, email: string, createdAt: int)

  function CreatedAt(e: Entry): int { e.createdAt }

  /** The code keeps nine registrations (its comment says five). */
  const LatestCount := 9

  datatype DashboardData = DashboardData(totalRegistrations: nat, totalMessages: nat, latestRegistrations: seq<Entry>)

  /** `registrationsData.sort(newest first).slice(0, 9)`. */
  function Latest(regs: seq<Entry>): (latest: seq<Entry>)
    ensures |latest| == if |regs| < LatestCount then |regs| else LatestCount
    ensures NewestFirst(latest, CreatedAt)
    ensures multiset(latest) <= multiset(regs)
  {
    var sorted := SortNewestFirst(regs, CreatedAt);
    var n := if |sorted| < LatestCount then |sorted| else LatestCount;
    assert sorted == sorted[..n] + sorted[n..];
    sorted[..n]
  }

  /** The registrations `Latest` leaves out: the rest of the sorted list. */
  function Excluded(regs: seq<Entry>): seq<Entry> {
    var sorted := SortNewestFirst(regs, CreatedAt);
    sorted[|Latest(regs)|..]
  }

  /**
   * Nothing is lost and nothing left out is newer than anything shown:
   * the shown and the left-out registrations together are the fetched
   * ones, and every left-out one is at most as new as every shown one.
   */
  lemma LatestAreNewest(regs: seq<Entry>)
    ensures multiset(Latest(regs)) + multiset(Excluded(regs)) == multiset(regs)
    ensures forall x, y :: x in Excluded(regs) && y in Latest(regs) ==> x.createdAt <= y.createdAt
  {
    var sorted := SortNewestFirst(regs, CreatedAt);
    var n := |Latest(regs)|;
    assert sorted == Latest(regs) + Excluded(regs);
    forall x, y | x in Excluded(regs) && y in Latest(regs) ensures x.createdAt <= y.createdAt {
      var i :| 0 <= i < n && sorted[i] == y;
      var j :| 0 <= j < |sorted| - n && Excluded(regs)[j] == x;
      assert sorted[n + j] == x;
    }
  }

  /** What the dashboard shows once both collections were fetched. */
  function Summarize(regs: seq<Entry>, messageCount: nat): (d: DashboardData)
    ensures d.totalRegistrations == |regs| && d.totalMessages == messageCount
    ensures d.latestRegistrations == Latest(regs)
    ensures |d.latestRegistrations| <= d.totalRegistrations
  {
    DashboardData(|regs|, messageCount, Latest(regs))
  }

  /** The colours the widgets name. */
  const NamedColors: set<string> := {"blue", "purple", "emerald", "amber"}

  /** The light background and dark text classes of one hue. */
  function HueClasses(hue: string): string {
    "bg-" + hue + "-100 text-" + hue + "-600"
  }

  /** `getColorClasses`. */
  function ColorClasses(color: string): string {
    match color
    case "blue" => "bg-blue-100 text-blue-600"
    case "purple" => "bg-purple-100 text-purple-600"
    case "emerald" => "bg-emerald-100 text-emerald-600"
    case "amber" => "bg-amber-100 text-amber-600"
    case _ => "bg-gray-100 text-gray-600"
  }

  /** Each of the four named colours gets its own hue's pair, which is not the gray one. */
  lemma NamedColorsOwnClasses(color: string)
    requires color in NamedColors
    ensures ColorClasses(color) == HueClasses(color)
    ensures ColorClasses(color) != HueClasses("gray")
  {
    if color == "blue" {
      BluePair();
    } else if color == "purple" {
      PurplePair();
    } else if color == "emerald" {
      EmeraldPair();
    } else {
      AmberPair();
    }
    assert HueClasses("gray")[3] == 'g';
  }

  // One lemma per hue: literal equalities are cheap alone and costly together.
  lemma BluePair() ensures HueClasses("blue") == "bg-blue-100 text-blue-600" {}
  lemma PurplePair() ensures HueClasses("purple") == "bg-purple-100 text-purple-600" {}
  lemma EmeraldPair() ensures HueClasses("emerald") == "bg-emerald-100 text-emerald-600" {}
  lemma AmberPair() ensures HueClasses("amber") == "bg-amber-100 text-amber-600" {}

  /** Every other string gets the gray pair. */
  lemma OtherColorsAreGray(color: string)
    requires color !in NamedColors
    ensures ColorClasses(color) == HueClasses("gray")
  {
  }
}
