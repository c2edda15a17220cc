/**
 * The admin posters page: the poster list (starting from the four
 * panelists), the search over it, deleting by id, choosing an image file,
 * and adding a poster. A new poster's id is the list's length plus one,
 * so after a deletion it can repeat an id still in the list.
 */
module AdminPosters {
  import opened Wrappers
  import opened Text
  import opened Seqs

  datatype Poster = Poster(
    id: int,
    title: string,
    author: string,
    description: string,
    imageUrl: string,
    uploadDate: Option<string>)

  /** The file an input delivers: only its MIME type matters here. */
  datatype File = File(name: string, mimeType: string)

  /** The form values `onSubmit` receives. */
  datatype PosterForm = PosterForm(title: string, author: string, description: Option<string>)

  const InitialPosters: seq<Poster> := [
    Poster(1, "Moderator", "Suhail Hidaya Hudawi", "Dean, Kulliyyah of Qur'an & Sunnah",
      "/images/Suhail Hidaya Hudawi.jpeg", None),
    Poster(2, "Panelist", "Shuhaibul Haitami", "Professor of Nandhi Darussalam",
      "https://skssf.in/wp-content/uploads/2022/11/haithami.jpeg", None),
    Poster(3, "Panelist", "Dr. Abdul Qayoom", "Assistant Professor, PTM Govt College Perinthalmanna",
      "/images/Dr. Abdul Qayoom.jpeg", None),
    Poster(4, "Panelist", "Salam Faisy Olavattur", "Iritaq Academic Senate Member",
      "/images/Salam Faisy Olavattur.jpeg", None)
  ]

  /** `posterSchema`: title and author need at least one character. */
  predicate FormAccepted(form: PosterForm) {
    |form.title| >= 1 && |form.author| >= 1
  }

  /** The search: the query, ignoring case, occurs in the title or the author. */
  predicate Matches(p: Poster, query: string) {
    IncludesIgnoringCase(p.title, query) || IncludesIgnoringCase(p.author, query)
  }

  /** `filteredPosters`: exactly the matching posters, in list order. */
  function FilterPosters(posters: seq<Poster>, query: string): (r: seq<Poster>)
    ensures SubsequenceOf(r, posters)
    ensures forall p :: p in r <==> p in posters && Matches(p, query)
  {
    var keep := p => Matches(p, query);
    FilterIsSubsequence(posters, keep);
    forall p ensures p in Filter(posters, keep) <==> p in posters && keep(p) {
      FilterMember(posters, keep, p);
    }
    Filter(posters, keep)
  }

  /** An empty search box shows every poster, in order. */
  lemma EmptyQueryKeepsAll(posters: seq<Poster>)
    ensures FilterPosters(posters, "") == posters
  {
    var keep := p => Matches(p, "");
    forall p | p in posters ensures keep(p) {
      EmptyQueryIncluded(p.title);
    }
    FilterAll(posters, keep);
  }

  /** `posters.filter(poster => poster.id !== id)`: every poster with that id goes, the rest stay in order. */
  function RemoveId(posters: seq<Poster>, id: int): (r: seq<Poster>)
    ensures SubsequenceOf(r, posters)
    ensures forall p :: p in r <==> p in posters && p.id != id
  {
    var keep := (p: Poster) => p.id != id;
    FilterIsSubsequence(posters, keep);
    forall p ensures p in Filter(posters, keep) <==> p in posters && keep(p) {
      FilterMember(posters, keep, p);
    }
    Filter(posters, keep)
  }

  /** The poster `onSubmit` appends to a list of `count` posters. */
  function NewPoster(count: nat, form: PosterForm, today: string): (p: Poster)
    ensures p.id == count + 1
    ensures p.title == form.title && p.author == form.author
  {
    var n := DecimalString(count + 1);
    Poster(count + 1, form.title, form.author,
      if form.description.Some? then form.description.value else "",
      "/images/posters/poster" + n + ".jpg", Some(today))
  }

  /** The ids are 1, 2, …, n in list order: true of the initial list. */
  predicate Numbered(posters: seq<Poster>) {
    forall k :: 0 <= k < |posters| ==> posters[k].id == k + 1
  }

  /** While nothing was deleted, appending keeps the ids numbered, so the new id is fresh. */
  lemma AppendKeepsNumbered(posters: seq<Poster>, form: PosterForm, today: string)
    requires Numbered(posters)
    ensures Numbered(posters + [NewPoster(|posters|, form, today)])
    ensures forall k :: 0 <= k < |posters| ==> posters[k].id != NewPoster(|posters|, form, today).id
  {
  }

  /** Two posters with distinct ids would keep image URLs apart too: the URL is made from the id. */
  lemma ImageUrlFollowsId(count1: nat, count2: nat, form1: PosterForm, form2: PosterForm, today: string)
    ensures NewPoster(count1, form1, today).imageUrl == NewPoster(count2, form2, today).imageUrl <==> count1 == count2
  {
    var a, b := DecimalString(count1 + 1), DecimalString(count2 + 1);
    var prefix := "/images/posters/poster";
    if NewPoster(count1, form1, today).imageUrl == NewPoster(count2, form2, today).imageUrl {
      var u := prefix + a + ".jpg";
      var v := prefix + b + ".jpg";
      assert u == v;
      assert |a| == |b|;
      assert a == u[|prefix|..|prefix| + |a|];
      assert b == v[|prefix|..|prefix| + |b|];
      DecimalStringInjective(count1 + 1, count2 + 1);
    }
  }

  /** The starting list is numbered. */
  lemma InitialNumbered()
    ensures Numbered(InitialPosters)
  {
  }

  /** In a numbered list an id names one poster, and deleting it removes just that one. */
  lemma RemoveNumbered(posters: seq<Poster>, id: int)
    requires Numbered(posters) && 1 <= id <= |posters|
    ensures RemoveId(posters, id) == posters[..id - 1] + posters[id..]
  {
    var keep := (p: Poster) => p.id != id;
    assert forall j :: 0 <= j < |posters| && j != id - 1 ==> keep(posters[j]);
    FilterRemovesOne(posters, keep, id - 1);
  }

  /**
   * The id is not fresh after a deletion: delete any poster but the last
   * from a numbered list and add one, and the new poster gets the id of
   * the last poster, which is still in the list.
   */
  lemma IdRepeatsAfterDelete(posters: seq<Poster>, id: int, form: PosterForm, today: string)
    requires Numbered(posters) && 1 <= id < |posters|
    ensures var rest := RemoveId(posters, id);
      |rest| == |posters| - 1 && rest[|rest| - 1] == posters[|posters| - 1]
      && NewPoster(|rest|, form, today).id == rest[|rest| - 1].id
  {
    RemoveNumbered(posters, id);
    var n := |posters|;
    var rest := posters[..id - 1] + posters[id..];
    assert |rest| == n - 1 && rest[n - 2] == posters[n - 1] by {
      assert rest[n - 2] == posters[id..][n - 1 - id];
    }
  }

  /** The page's state. */
  class PostersPage {
    var posters: seq<Poster>
    var searchQuery: string
    var showUpload: bool
    var selectedFile: Option<File>
    var previewUrl: Option<string>
    var selectedPoster: Option<Poster>

    constructor ()
      ensures posters == InitialPosters && searchQuery == "" && !showUpload
      ensures selectedFile.None? && previewUrl.None? && selectedPoster.None?
    {
      posters := InitialPosters;
      searchQuery := "";
      showUpload := false;
      selectedFile := None;
      previewUrl := None;
      selectedPoster := None;
    }

    /** `handleDelete`. */
    method Delete(id: int)
      modifies this`posters
      ensures posters == RemoveId(old(posters), id)
    {
      posters := RemoveId(posters, id);
    }

    /** `handleView`. */
    method View(poster: Poster)
      modifies this`selectedPoster
      ensures selectedPoster == Some(poster)
    {
      selectedPoster := Some(poster);
    }

    /**
     * `handleFileChange`: no file changes nothing; a file whose type does
     * not mention "image" is refused and changes nothing; otherwise it
     * becomes the selected file with its object URL as the preview.
     */
    method FileChange(file: Option<File>, objectUrl: string) returns (accepted: bool)
      modifies this`selectedFile, this`previewUrl
      ensures accepted <==> file.Some? && Contains(file.value.mimeType, "image")
      ensures accepted ==> selectedFile == file && previewUrl == Some(objectUrl)
      ensures !accepted ==> unchanged(this`selectedFile, this`previewUrl)
    {
      if file.None? {
        return false;
      }
      if !Contains(file.value.mimeType, "image") {
        return false;
      }
      previewUrl := Some(objectUrl);
      selectedFile := file;
      accepted := true;
    }

    /**
     * The form's submit: the schema refuses an empty title or author;
     * `onSubmit` refuses when no file is selected. Otherwise one poster
     * is appended and the upload panel, the file and the preview are
     * cleared. `today` is the ISO date of the upload.
     */
    method Submit(form: PosterForm, today: string) returns (added: bool)
      modifies this`posters, this`showUpload, this`selectedFile, this`previewUrl
      ensures added <==> FormAccepted(form) && old(selectedFile).Some?
      ensures added ==> posters == old(posters) + [NewPoster(|old(posters)|, form, today)]
      ensures added ==> !showUpload && selectedFile.None? && previewUrl.None?
      ensures !added ==> unchanged(this`posters, this`showUpload, this`selectedFile, this`previewUrl)
    {
      if !FormAccepted(form) || selectedFile.None? {
        return false;
      }
      posters := posters + [NewPoster(|posters|, form, today)];
      showUpload := false;
      selectedFile := None;
      previewUrl := None;
      added := true;
    }
  }
}
