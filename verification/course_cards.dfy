/** The course cards of the site script: the "country" anchor a course tag
    leads to, and which video ids a card's Start button carries. */
module CourseCards {
  import opened Options
  import opened Text

  /* ---------- country slug ---------- */

  /** `title.toLowerCase().replace(/\s+/g, '-')`. */
  function Slug(title: string): (r: string)
    ensures NoSpace(r)
    ensures forall i :: 0 <= i < |r| ==> !IsUpper(r[i])
    ensures |r| <= |title|
  {
    var lowered := Lower(title);
    var r := CollapseSpace(lowered, '-');
    CollapseNoUpper(lowered, '-');
    r
  }

  /** A slug is its own slug. */
  lemma SlugIdempotent(title: string)
    ensures Slug(Slug(title)) == Slug(title)
  {
    var s := Slug(title);
    LowerWithoutUpper(s);
    CollapseWithoutSpace(s, '-');
  }

  /** A title without white space only loses its capitals. */
  lemma SlugOfOneWord(title: string)
    requires NoSpace(title)
    ensures Slug(title) == Lower(title)
  {
    CollapseWithoutSpace(Lower(title), '-');
  }

  /** Each run of white space becomes exactly one '-', whatever its length
      and whatever kind of white space it holds. */
  lemma {:induction false} SlugRun(a: string, w: string, b: string)
    requires |a| > 0 ==> !IsSpace(a[|a| - 1])
    requires |w| > 0 && AllSpace(w)
    requires |b| > 0 ==> !IsSpace(b[0])
    ensures Slug(a + w + b) == Slug(a) + "-" + Slug(b)
  {
    LowerConcat(a + w, b);
    LowerConcat(a, w);
    var la, lw, lb := Lower(a), Lower(w), Lower(b);
    assert AllSpace(lw);
    CollapseRun(la, lw, lb, '-');
  }

  /* ---------- video list ---------- */

  /** The video ids a card's Start button carries, as the comma-joined string:
      a non-empty `data-yt` attribute first, then the exact card title in the
      video table, then the lower-cased `data-lang` attribute, else none. */
  function SelectVideos(dataYt: Option<string>, title: string, dataLang: Option<string>,
                        videoMap: map<string, seq<string>>): (csv: string)
    ensures dataYt.Some? && dataYt.value != "" ==> csv == dataYt.value
    ensures (dataYt.None? || dataYt.value == "") && title in videoMap ==>
              csv == Join(videoMap[title], ',')
    ensures (dataYt.None? || dataYt.value == "") && title !in videoMap ==>
              var key := Lower(dataLang.GetOr(""));
              csv == (if key != "" && key in videoMap then Join(videoMap[key], ',') else "")
  {
    var explicit := dataYt.GetOr("");
    if explicit != "" then explicit
    else if title in videoMap then Join(videoMap[title], ',')
    else
      var langKey := Lower(dataLang.GetOr(""));
      if langKey != "" && langKey in videoMap then Join(videoMap[langKey], ',') else ""
  }

  /** A card whose title is in the table carries exactly that title's ids:
      splitting the joined string gives the list back. */
  lemma TitleVideosRecoverable(title: string, dataLang: Option<string>, videoMap: map<string, seq<string>>)
    requires title in videoMap && |videoMap[title]| > 0
    requires forall i :: 0 <= i < |videoMap[title]| ==> ',' !in videoMap[title][i]
    ensures Split(SelectVideos(None, title, dataLang, videoMap), ',') == videoMap[title]
  {
    SplitJoin(videoMap[title], ',');
  }

  /** An explicit attribute wins even over a title the table knows. */
  lemma ExplicitIdsWin(ids: string, title: string, dataLang: Option<string>, videoMap: map<string, seq<string>>)
    requires ids != ""
    ensures SelectVideos(Some(ids), title, dataLang, videoMap) == ids
  {
  }
}
