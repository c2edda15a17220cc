/**
 * The admin contestants page: the six contestants it starts from, the
 * search over name, institution and research topic, deleting by id,
 * the edit notice and the detail dialog.
 */
module AdminContestants {
  import opened Wrappers
  import opened Text
  import opened Seqs

  datatype Contestant = Contestant(id: int, name: string, institution: string, research: string, image: string)

  const InitialContestants: seq<Contestant> := [
    Contestant(1, "Dr. Ahmad Al-Farabi", "International Islamic University",
      "Mathematical Patterns in Quranic Verses", "/images/model.jpg"),
    Contestant(2, "Prof. Sarah Rahman", "Middle East Technical University",
      "Numerical Symmetry in Quranic Structure", "/images/model.jpg"),
    Contestant(3, "Dr. Mohammed Hassan", "Al-Azhar University",
      "Digital Roots in Quranic Sequences", "/images/model.jpg"),
    Contestant(4, "Dr. Layla Kareem", "University of Jordan",
      "Golden Ratio in Quranic Architecture", "/images/model.jpg"),
    Contestant(5, "Prof. Ibrahim Malik", "King Fahd University",
      "Prime Numbers in Quranic Revelation Order", "/images/model.jpg"),
    Contestant(6, "Dr. Fatima Al-Zahra", "Qatar Foundation",
      "Statistical Analysis of Word Frequency", "/images/model.jpg")
  ]

  /** The search: the query, ignoring case, occurs in the name, the institution or the research topic. */
  predicate Matches(c: Contestant, query: string) {
    || IncludesIgnoringCase(c.name, query)
    || IncludesIgnoringCase(c.institution, query)
    || IncludesIgnoringCase(c.research, query)
  }

  /** `filteredContestants`: exactly the matching contestants, in list order. */
  function FilterContestants(cs: seq<Contestant>, query: string): (r: seq<Contestant>)
    ensures SubsequenceOf(r, cs)
    ensures forall c :: c in r <==> c in cs && Matches(c, query)
  {
    var keep := c => Matches(c, query);
    FilterIsSubsequence(cs, keep);
    forall c ensures c in Filter(cs, keep) <==> c in cs && keep(c) {
      FilterMember(cs, keep, c);
    }
    Filter(cs, keep)
  }

  /** An empty search box shows every contestant, in order. */
  lemma EmptyQueryKeepsAll(cs: seq<Contestant>)
    ensures FilterContestants(cs, "") == cs
  {
    var keep := c => Matches(c, "");
    forall c | c in cs ensures keep(c) {
      EmptyQueryIncluded(c.name);
    }
    FilterAll(cs, keep);
  }

  /** `contestants.filter(c => c.id !== id)`: every contestant with that id goes, the rest stay in order. */
  function RemoveId(cs: seq<Contestant>, id: int): (r: seq<Contestant>)
    ensures SubsequenceOf(r, cs)
    ensures forall c :: c in r <==> c in cs && c.id != id
  {
    var keep := (c: Contestant) => c.id != id;
    FilterIsSubsequence(cs, keep);
    forall c ensures c in Filter(cs, keep) <==> c in cs && keep(c) {
      FilterMember(cs, keep, c);
    }
    Filter(cs, keep)
  }

  /** Deleting an id that is not in the list leaves the list as it was. */
  lemma RemoveAbsentId(cs: seq<Contestant>, id: int)
    requires forall c :: c in cs ==> c.id != id
    ensures RemoveId(cs, id) == cs
  {
    FilterAll(cs, (c: Contestant) => c.id != id);
  }

  /** The description of the toast `handleEdit` shows: the template with the id written in decimal. */
  function EditNotice(id: int): (s: string)
    ensures |s| > |"Editing contestant with ID: "|
    ensures s[..|"Editing contestant with ID: "|] == "Editing contestant with ID: "
    ensures id >= 0 ==> s[|"Editing contestant with ID: "|..] == DecimalString(id)
    ensures id < 0 ==> s[|"Editing contestant with ID: "|..] == "-" + DecimalString(-id)
  {
    var prefix := "Editing contestant with ID: ";
    var digits := if id < 0 then "-" + DecimalString(-id) else DecimalString(id);
    assert (prefix + digits)[..|prefix|] == prefix;
    prefix + digits
  }

  /** The id can be read back from the notice: the sign, then its digits. */
  lemma EditNoticeNamesId(id: int)
    ensures var tail := EditNotice(id)[|"Editing contestant with ID: "|..];
      if id >= 0 then IsDigit(tail[0]) && ParseDecimal(tail) == id
      else tail[0] == '-' && ParseDecimal(tail[1..]) == -id
  {
    if id >= 0 {
      ParseDecimalString(id);
    } else {
      var tail := EditNotice(id)[|"Editing contestant with ID: "|..];
      assert tail[1..] == DecimalString(-id);
      ParseDecimalString(-id);
    }
  }

  /** The page's state. */
  class ContestantsPage {
    var contestants: seq<Contestant>
    var searchQuery: string
    var selectedContestant: Option<Contestant>

    constructor ()
      ensures contestants == InitialContestants && searchQuery == "" && selectedContestant.None?
    {
      contestants := InitialContestants;
      searchQuery := "";
      selectedContestant := None;
    }

    /** The search box. */
    method SetSearchQuery(query: string)
      modifies this`searchQuery
      ensures searchQuery == query
    {
      searchQuery := query;
    }

    /** `handleDelete`. */
    method Delete(id: int)
      modifies this`contestants
      ensures contestants == RemoveId(old(contestants), id)
    {
      contestants := RemoveId(contestants, id);
    }

    /** `handleEdit`: only a notice; nothing changes. */
    method Edit(id: int) returns (notice: string)
      ensures notice == EditNotice(id)
    {
      notice := EditNotice(id);
    }

    /** `handleView`. */
    method View(c: Contestant)
      modifies this`selectedContestant
      ensures selectedContestant == Some(c)
    {
      selectedContestant := Some(c);
    }

    /** The dialog's `onOpenChange`: closing clears the selection. */
    method CloseDialog()
      modifies this`selectedContestant
      ensures selectedContestant.None?
    {
      selectedContestant := None;
    }
  }
}
