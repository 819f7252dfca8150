/** The decision rules around the course dashboard and the courseware page:
    how a course card becomes a `Course` and its state, how chapters become
    numbered `Section`s, and which typed-in numbers choose a course or the
    sections to download.

    The HTML navigation is not modelled: a card is its heading text and its
    first link, a chapter is its heading link text and its first list link.
    A sequence of typed-in numbers stands for the prompt loop; running out of
    numbers stands for the input ending. */
module Courses {
  import opened Wrappers
  import opened Text

  datatype CourseState = NotYet | Started

  /** `Course(name, url, state)`. */
  datatype Course = Course(name: string, url: Option<string>, state: CourseState)

  /** A link and its `href` attribute, if it has one. */
  datatype Anchor = Anchor(href: Option<string>)

  /** A course card on the dashboard: the text of its heading and its first
      link, if it has one. */
  datatype CourseCard = CourseCard(heading: string, anchor: Option<Anchor>)

  /** `Section(position, name, url)`. */
  datatype Section = Section(position: nat, name: string, url: string)

  /** A chapter on the courseware page: the text of its heading link and the
      `href` of the first link in its list. */
  datatype Chapter = Chapter(title: Option<string>, href: Option<string>)

  /** What navigating a page can raise that the code does not catch. */
  datatype PageError = MissingAnchor | MissingSectionName | MissingSectionLink

  /** `url` without one trailing slash, if it has one. */
  function DropTrailingSlash(url: string): (r: string)
    ensures r == url || url == r + "/"
  {
    if |url| > 0 && url[|url| - 1] == '/' then url[..|url| - 1] else url
  }

  lemma EndsWithLast(s: string, t: string)
    ensures EndsWith(s, t) && |t| > 0 ==> s[|s| - 1] == t[|t| - 1]
  {
    if EndsWith(s, t) && |t| > 0 {
      assert s[|s| - |t|..][|t| - 1] == s[|s| - 1];
    }
  }

  lemma EndsWithSlash(d: string, t: string)
    ensures EndsWith(d + "/", t + "/") <==> EndsWith(d, t)
  {
    var u := d + "/";
    if EndsWith(d, t) {
      assert u[|u| - |t| - 1..] == d[|d| - |t|..] + "/";
    }
    if EndsWith(u, t + "/") {
      assert d[|d| - |t|..] == u[|u| - |t| - 1..][..|t|];
    }
  }

  /** The state a course URL indicates: a course counts as started exactly
      when its URL, one trailing slash aside, ends in `info`. */
  function StateOf(url: string): (state: CourseState)
    ensures state == Started <==> EndsWith(DropTrailingSlash(url), "info")
  {
    var d := DropTrailingSlash(url);
    EndsWithLast(url, "info");
    EndsWithLast(url, "info/");
    assert "info" + "/" == "info/";
    EndsWithSlash(d, "info");
    if EndsWith(url, "info") || EndsWith(url, "info/") then Started else NotYet
  }

  /** One card of `get_courses_info`: the stripped heading is the name; a
      link without `href` leaves the course without URL and not started; a
      card without any link fails, since only a missing attribute is caught. */
  function CourseOfCard(baseUrl: string, card: CourseCard): (r: Result<Course, PageError>)
    ensures r.Err? <==> card.anchor.None?
    ensures r.Ok? ==> r.value.url.None? ==> r.value.state == NotYet
  {
    var name := Strip(card.heading);
    match card.anchor
    case None => Err(MissingAnchor)
    case Some(Anchor(None)) => Ok(Course(name, None, NotYet))
    case Some(Anchor(Some(href))) =>
      var url := baseUrl + href;
      Ok(Course(name, Some(url), StateOf(url)))
  }

  /** What one card yields: it fails exactly when it has no link; otherwise
      the name is the heading without surrounding white space, the course has
      a URL exactly when the link has an `href`, the URL is that `href`
      joined to the base URL, and the course is started exactly when it has
      a URL ending in `info`, one trailing slash aside. */
  lemma CourseOfCardSpec(baseUrl: string, card: CourseCard)
    ensures CourseOfCard(baseUrl, card).Err? <==> card.anchor.None?
    ensures CourseOfCard(baseUrl, card).Err? ==> CourseOfCard(baseUrl, card).error == MissingAnchor
    ensures CourseOfCard(baseUrl, card).Ok? ==>
              var c := CourseOfCard(baseUrl, card).value;
              && c.name == Strip(card.heading) && Trimmed(c.name)
              && (c.url.Some? <==> card.anchor.value.href.Some?)
              && (c.url.Some? ==> && StartsWith(c.url.value, baseUrl)
                                  && EndsWith(c.url.value, card.anchor.value.href.value)
                                  && |c.url.value| == |baseUrl| + |card.anchor.value.href.value|)
              && (c.state == Started <==> c.url.Some? && EndsWith(DropTrailingSlash(c.url.value), "info"))
  {
    if card.anchor.Some? && card.anchor.value.href.Some? {
      var href := card.anchor.value.href.value;
      var url := baseUrl + href;
      assert url[..|baseUrl|] == baseUrl && url[|url| - |href|..] == href;
    }
  }

  /** Every card has a link. */
  predicate AllLinked(cards: seq<CourseCard>) {
    forall k :: 0 <= k < |cards| ==> cards[k].anchor.Some?
  }

  /** `courses` are the courses of `cards`, card by card. */
  predicate Parsed(baseUrl: string, cards: seq<CourseCard>, courses: seq<Course>) {
    && |courses| == |cards|
    && forall k :: 0 <= k < |cards| ==> CourseOfCard(baseUrl, cards[k]) == Ok(courses[k])
  }

  lemma AllLinkedSnoc(cards: seq<CourseCard>)
    requires |cards| > 0
    ensures AllLinked(cards) <==> AllLinked(cards[..|cards| - 1]) && cards[|cards| - 1].anchor.Some?
  {
    assert forall k :: 0 <= k < |cards| - 1 ==> cards[..|cards| - 1][k] == cards[k];
  }

  lemma ParsedSnoc(baseUrl: string, cards: seq<CourseCard>, courses: seq<Course>, c: Course)
    requires |cards| > 0 && Parsed(baseUrl, cards[..|cards| - 1], courses)
    requires CourseOfCard(baseUrl, cards[|cards| - 1]) == Ok(c)
    ensures Parsed(baseUrl, cards, courses + [c])
  {
    var n := |cards| - 1;
    forall k | 0 <= k < |cards|
      ensures CourseOfCard(baseUrl, cards[k]) == Ok((courses + [c])[k])
    {
      if k < n {
        assert cards[..n][k] == cards[k];
        assert CourseOfCard(baseUrl, cards[..n][k]) == Ok(courses[k]);
        assert (courses + [c])[k] == courses[k];
      } else {
        assert (courses + [c])[k] == c;
      }
    }
  }

  /** `get_courses_info` after the page is parsed: one course per card, in
      card order, or the failure of a card without a link. */
  function CoursesOf(baseUrl: string, cards: seq<CourseCard>): (r: Result<seq<Course>, PageError>)
    ensures r.Ok? <==> AllLinked(cards)
    ensures r.Err? ==> r.error == MissingAnchor
    ensures r.Ok? ==> Parsed(baseUrl, cards, r.value)
  {
    if cards == [] then Ok([])
    else
      var n := |cards| - 1;
      var front := CoursesOf(baseUrl, cards[..n]);
      var last := CourseOfCard(baseUrl, cards[n]);
      AllLinkedSnoc(cards);
      if front.Err? then front
      else if last.Err? then Err(last.error)
      else
        ParsedSnoc(baseUrl, cards, front.value, last.value);
        Ok(front.value + [last.value])
  }

  /** Course `k` of the list is named after card `k` and is started exactly
      when card `k` links, one trailing slash aside, to a URL ending in
      `info`. */
  lemma CoursesOfStates(baseUrl: string, cards: seq<CourseCard>)
    ensures CoursesOf(baseUrl, cards).Ok? ==>
              var courses := CoursesOf(baseUrl, cards).value;
              && |courses| == |cards|
              && forall k :: 0 <= k < |cards| ==>
                   && courses[k].name == Strip(cards[k].heading)
                   && (courses[k].state == Started <==>
                         cards[k].anchor.value.href.Some?
                         && EndsWith(DropTrailingSlash(baseUrl + cards[k].anchor.value.href.value), "info"))
  {
    forall k | 0 <= k < |cards| {
      CourseOfCardSpec(baseUrl, cards[k]);
    }
  }

  /** A typed-in number the course prompt accepts: one of the listed
      numbers, and that course has started. */
  predicate Acceptable(courses: seq<Course>, number: int) {
    1 <= number <= |courses| && courses[number - 1].state == Started
  }

  /** `get_selected_course`: the course of the first acceptable number; none
      if the input ends first. */
  function ChooseCourse(courses: seq<Course>, entries: seq<int>): (r: Option<Course>)
    ensures r.None? <==> forall k :: 0 <= k < |entries| ==> !Acceptable(courses, entries[k])
    ensures r.Some? ==> r.value in courses && r.value.state == Started
  {
    if entries == [] then None
    else if Acceptable(courses, entries[0]) then Some(courses[entries[0] - 1])
    else
      var r := ChooseCourse(courses, entries[1..]);
      assert forall k :: 1 <= k < |entries| ==> entries[1..][k - 1] == entries[k];
      r
  }

  /** The number that chooses is the first acceptable one: every number
      before it is turned away, whatever it is. */
  lemma {:induction false} ChooseCourseFirst(courses: seq<Course>, entries: seq<int>, j: nat)
    requires j < |entries| && Acceptable(courses, entries[j])
    requires forall k :: 0 <= k < j ==> !Acceptable(courses, entries[k])
    ensures ChooseCourse(courses, entries) == Some(courses[entries[j] - 1])
    decreases j
  {
    if j > 0 {
      assert !Acceptable(courses, entries[0]);
      assert forall k :: 0 <= k < j - 1 ==> entries[1..][k] == entries[k + 1];
      ChooseCourseFirst(courses, entries[1..], j - 1);
    }
  }

  /** One chapter of `get_available_sections`, at 1-based `position`: the
      name is looked up before the link. */
  function SectionOf(baseUrl: string, chapter: Chapter, position: nat): (r: Result<Section, PageError>)
    ensures r.Ok? <==> chapter.title.Some? && chapter.href.Some?
    ensures r.Ok? ==> r.value.position == position
  {
    match chapter.title
    case None => Err(MissingSectionName)
    case Some(title) =>
      match chapter.href
      case None => Err(MissingSectionLink)
      case Some(href) => Ok(Section(position, Strip(title), baseUrl + href))
  }

  /** What one chapter yields: a section exactly when it has both a title
      and a link, the missing title reported first; the section carries the
      given position, the title without surrounding white space, and the
      link joined to the base URL. */
  lemma SectionOfSpec(baseUrl: string, chapter: Chapter, position: nat)
    ensures SectionOf(baseUrl, chapter, position).Ok? <==> chapter.title.Some? && chapter.href.Some?
    ensures SectionOf(baseUrl, chapter, position).Err? ==>
              (SectionOf(baseUrl, chapter, position).error == MissingSectionName <==> chapter.title.None?)
    ensures SectionOf(baseUrl, chapter, position).Ok? ==>
              var s := SectionOf(baseUrl, chapter, position).value;
              && s.position == position
              && s.name == Strip(chapter.title.value) && Trimmed(s.name)
              && StartsWith(s.url, baseUrl)
              && EndsWith(s.url, chapter.href.value)
              && |s.url| == |baseUrl| + |chapter.href.value|
  {
    if chapter.title.Some? && chapter.href.Some? {
      var url := baseUrl + chapter.href.value;
      assert url[..|baseUrl|] == baseUrl && url[|url| - |chapter.href.value|..] == chapter.href.value;
    }
  }

  /** Every chapter yields a section. */
  predicate ChaptersOk(baseUrl: string, chapters: seq<Chapter>) {
    forall k :: 0 <= k < |chapters| ==> SectionOf(baseUrl, chapters[k], k + 1).Ok?
  }

  /** `sections` are the sections of `chapters`, chapter by chapter,
      numbered from 1. */
  predicate Listed(baseUrl: string, chapters: seq<Chapter>, sections: seq<Section>) {
    && |sections| == |chapters|
    && forall k :: 0 <= k < |chapters| ==> SectionOf(baseUrl, chapters[k], k + 1) == Ok(sections[k])
  }

  /** `e` is the failure of the first chapter that fails. */
  predicate FirstFailure(baseUrl: string, chapters: seq<Chapter>, e: PageError) {
    exists j :: 0 <= j < |chapters| && SectionOf(baseUrl, chapters[j], j + 1) == Err(e)
                && forall k :: 0 <= k < j ==> SectionOf(baseUrl, chapters[k], k + 1).Ok?
  }

  lemma ChaptersOkSnoc(baseUrl: string, chapters: seq<Chapter>)
    requires |chapters| > 0
    ensures ChaptersOk(baseUrl, chapters) <==>
            ChaptersOk(baseUrl, chapters[..|chapters| - 1]) && SectionOf(baseUrl, chapters[|chapters| - 1], |chapters|).Ok?
  {
    assert forall k :: 0 <= k < |chapters| - 1 ==> chapters[..|chapters| - 1][k] == chapters[k];
  }

  lemma ListedSnoc(baseUrl: string, chapters: seq<Chapter>, sections: seq<Section>, s: Section)
    requires |chapters| > 0 && Listed(baseUrl, chapters[..|chapters| - 1], sections)
    requires SectionOf(baseUrl, chapters[|chapters| - 1], |chapters|) == Ok(s)
    ensures Listed(baseUrl, chapters, sections + [s])
  {
    var n := |chapters| - 1;
    forall k | 0 <= k < |chapters|
      ensures SectionOf(baseUrl, chapters[k], k + 1) == Ok((sections + [s])[k])
    {
      if k < n {
        assert chapters[..n][k] == chapters[k];
        assert SectionOf(baseUrl, chapters[..n][k], k + 1) == Ok(sections[k]);
        assert (sections + [s])[k] == sections[k];
      } else {
        assert (sections + [s])[k] == s;
      }
    }
  }

  lemma FirstFailureExtends(baseUrl: string, chapters: seq<Chapter>, e: PageError)
    requires |chapters| > 0 && FirstFailure(baseUrl, chapters[..|chapters| - 1], e)
    ensures FirstFailure(baseUrl, chapters, e)
  {
    var n := |chapters| - 1;
    var j :| 0 <= j < n && SectionOf(baseUrl, chapters[..n][j], j + 1) == Err(e)
             && forall k :: 0 <= k < j ==> SectionOf(baseUrl, chapters[..n][k], k + 1).Ok?;
    assert forall k :: 0 <= k <= j ==> chapters[..n][k] == chapters[k];
  }

  lemma FirstFailureLast(baseUrl: string, chapters: seq<Chapter>, e: PageError)
    requires |chapters| > 0 && ChaptersOk(baseUrl, chapters[..|chapters| - 1])
    requires SectionOf(baseUrl, chapters[|chapters| - 1], |chapters|) == Err(e)
    ensures FirstFailure(baseUrl, chapters, e)
  {
    var n := |chapters| - 1;
    assert forall k :: 0 <= k < n ==> chapters[..n][k] == chapters[k];
  }

  /** `get_available_sections` after the page is parsed: the chapters in
      page order, numbered 1, 2, …; the first chapter that fails decides the
      failure. */
  function ListSections(baseUrl: string, chapters: seq<Chapter>): (r: Result<seq<Section>, PageError>)
    ensures r.Ok? <==> ChaptersOk(baseUrl, chapters)
    ensures r.Ok? ==> Listed(baseUrl, chapters, r.value)
    ensures r.Err? ==> FirstFailure(baseUrl, chapters, r.error)
  {
    if chapters == [] then Ok([])
    else
      var n := |chapters| - 1;
      var front := ListSections(baseUrl, chapters[..n]);
      var last := SectionOf(baseUrl, chapters[n], n + 1);
      ChaptersOkSnoc(baseUrl, chapters);
      if front.Err? then
        FirstFailureExtends(baseUrl, chapters, front.error);
        front
      else if last.Err? then
        FirstFailureLast(baseUrl, chapters, last.error);
        Err(last.error)
      else
        ListedSnoc(baseUrl, chapters, front.value, last.value);
        Ok(front.value + [last.value])
  }

  /** The listed sections are numbered 1, 2, … in page order, each named
      after its chapter's title; they are listed exactly when every chapter
      has a title and a link. */
  lemma ListSectionsNumbered(baseUrl: string, chapters: seq<Chapter>)
    ensures ListSections(baseUrl, chapters).Ok? <==>
            forall k :: 0 <= k < |chapters| ==> chapters[k].title.Some? && chapters[k].href.Some?
    ensures ListSections(baseUrl, chapters).Ok? ==>
              var sections := ListSections(baseUrl, chapters).value;
              && |sections| == |chapters|
              && forall k :: 0 <= k < |chapters| ==>
                   sections[k].position == k + 1 && sections[k].name == Strip(chapters[k].title.value)
  {
    forall k | 0 <= k < |chapters| {
      SectionOfSpec(baseUrl, chapters[k], k + 1);
    }
  }

  /** Why no sections were chosen. */
  datatype ChoiceError = NoValidEntry | IndexOutOfRange

  /** Python's `s[k]`: a negative index counts from the end. */
  function PyIndex<T>(s: seq<T>, k: int): (r: Option<T>)
    ensures r.Some? <==> -|s| <= k < |s|
    ensures 0 <= k < |s| ==> r == Some(s[k])
    ensures -|s| <= k < 0 ==> r == Some(s[|s| + k])
  {
    if 0 <= k < |s| then Some(s[k])
    else if -|s| <= k < 0 then Some(s[|s| + k])
    else None
  }

  /** `get_selected_sections` as written: it re-prompts only while the
      number is above the menu, so zero and negative numbers are used as
      list indexes from the end. */
  function SelectSectionsAsWritten(sections: seq<Section>, entries: seq<int>): (r: Result<seq<Section>, ChoiceError>)
    ensures r == Err(NoValidEntry) <==> forall k :: 0 <= k < |entries| ==> entries[k] > |sections| + 1
    ensures r.Ok? ==> r.value == sections || (|r.value| == 1 && r.value[0] in sections)
  {
    if entries == [] then Err(NoValidEntry)
    else if entries[0] > |sections| + 1 then
      var r := SelectSectionsAsWritten(sections, entries[1..]);
      assert forall k :: 1 <= k < |entries| ==> entries[1..][k - 1] == entries[k];
      r
    else if entries[0] == |sections| + 1 then Ok(sections)
    else
      match PyIndex(sections, entries[0] - 1)
      case None => Err(IndexOutOfRange)
      case Some(s) => Ok([s])
  }

  /** As written, a first typed number from `1 - count` to 0, which the menu
      does not offer, downloads the section that many places before the
      end (0 the last one), and a lower number fails on the index; the
      intended guard asks again instead. */
  lemma NonPositiveCountsFromEnd(sections: seq<Section>, entries: seq<int>)
    requires |entries| > 0 && entries[0] <= 0
    ensures 1 - |sections| <= entries[0] ==>
              SelectSectionsAsWritten(sections, entries) == Ok([sections[|sections| + entries[0] - 1]])
    ensures entries[0] < 1 - |sections| ==> SelectSectionsAsWritten(sections, entries) == Err(IndexOutOfRange)
    ensures ChooseSections(sections, entries) == ChooseSections(sections, entries[1..])
  {
  }

  /** A menu number: one of the sections, or one more for all of them. */
  predicate ValidChoice(count: nat, number: int) {
    1 <= number <= count + 1
  }

  /** What a menu number chooses. */
  function Chosen(sections: seq<Section>, number: int): (r: seq<Section>)
    requires ValidChoice(|sections|, number)
    ensures number == |sections| + 1 ==> r == sections
    ensures number <= |sections| ==> |r| == 1 && r[0] == sections[number - 1]
  {
    if number == |sections| + 1 then sections else [sections[number - 1]]
  }

  /** The section choice with the guard the menu evidently intends: every
      number outside 1 to count + 1 is asked again. */
  function ChooseSections(sections: seq<Section>, entries: seq<int>): (r: Result<seq<Section>, ChoiceError>)
    ensures r.Err? <==> forall k :: 0 <= k < |entries| ==> !ValidChoice(|sections|, entries[k])
    ensures r.Err? ==> r.error == NoValidEntry
    ensures r.Ok? ==> r.value == sections || (|r.value| == 1 && r.value[0] in sections)
  {
    if entries == [] then Err(NoValidEntry)
    else if !ValidChoice(|sections|, entries[0]) then
      var r := ChooseSections(sections, entries[1..]);
      assert forall k :: 1 <= k < |entries| ==> entries[1..][k - 1] == entries[k];
      r
    else Ok(Chosen(sections, entries[0]))
  }

  /** The number that chooses is the first menu number typed. */
  lemma {:induction false} ChooseSectionsFirst(sections: seq<Section>, entries: seq<int>, j: nat)
    requires j < |entries| && ValidChoice(|sections|, entries[j])
    requires forall k :: 0 <= k < j ==> !ValidChoice(|sections|, entries[k])
    ensures ChooseSections(sections, entries) == Ok(Chosen(sections, entries[j]))
    decreases j
  {
    if j > 0 {
      assert !ValidChoice(|sections|, entries[0]);
      assert forall k :: 0 <= k < j - 1 ==> entries[1..][k] == entries[k + 1];
      ChooseSectionsFirst(sections, entries[1..], j - 1);
    }
  }

  /** As long as nobody types zero or a negative number, the code as written
      chooses exactly what the intended guard chooses. */
  lemma {:induction false} AsWrittenAgreesOnPositive(sections: seq<Section>, entries: seq<int>)
    requires forall k :: 0 <= k < |entries| ==> entries[k] >= 1
    ensures SelectSectionsAsWritten(sections, entries) == ChooseSections(sections, entries)
    decreases |entries|
  {
    if entries != [] && entries[0] > |sections| + 1 {
      assert forall k :: 0 <= k < |entries| - 1 ==> entries[1..][k] == entries[k + 1];
      AsWrittenAgreesOnPositive(sections, entries[1..]);
    }
  }
}
