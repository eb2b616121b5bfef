/**
 * The content script (content.js): the `CourseraTimeTracker` that reads the
 * course and module from the page address, captures the remaining video and
 * reading times shown on a module page, saves them under the course's storage
 * key and writes badges and a course total into the sidebar.
 *
 * The page is given to the model as values: the address as a string, the
 * texts of the time indicators as a sequence in document order, the sidebar's
 * module links and course material header as objects whose children the
 * tracker rewrites.
 */
module Tracker {
  import opened Wrappers
  import opened Matching
  import opened Text
  import opened Duration
  import opened Records
  import opened Sidebar

  // ---------------------------------------------------------------------------
  // Reading the page address.

  /** The two groups of `/\/learn\/([^\/]+)\/home\/module\/(\d+)/`. */
  datatype CoursePath = CoursePath(slug: string, number: string)

  /** `url.match(/\/learn\/([^\/]+)\/home\/module\/(\d+)/)`, as its two groups. */
  function DetectCourse(url: string): (r: Option<CoursePath>)
    ensures r.Some? ==> r.value.slug != [] && r.value.number != [] && AllIn(r.value.number, Digit)
  {
    var m := Search(url, LearnModule);
    if m.None? then None
    else
      LearnModuleSound(url, m.value.start);
      Some(CoursePath(m.value.group1, m.value.group2))
  }

  /** What `DetectCourse` finds is the leftmost course path of the address. */
  lemma DetectCourseSound(url: string)
    requires DetectCourse(url).Some?
    ensures var c := DetectCourse(url).value;
            exists p: nat :: CoursePathAt(url, p, c.slug, c.number)
                             && forall q: nat, slug, number | q < p :: !CoursePathAt(url, q, slug, number)
  {
    var m := Search(url, LearnModule).value;
    LearnModuleSound(url, m.start);
    forall q: nat, slug, number | q < m.start
      ensures !CoursePathAt(url, q, slug, number)
    {
      if CoursePathAt(url, q, slug, number) {
        LearnModuleComplete(url, q, slug, number);
      }
    }
  }

  /** The leftmost course path of the address is what `DetectCourse` finds. */
  lemma DetectCourseLeftmost(url: string, p: nat, slug: string, number: string)
    requires CoursePathAt(url, p, slug, number)
    requires forall q: nat, s, n | q < p :: !CoursePathAt(url, q, s, n)
    ensures DetectCourse(url) == Some(CoursePath(slug, number))
  {
    LearnModuleComplete(url, p, slug, number);
    forall q | 0 <= q < p
      ensures MatchAt(url, q, LearnModule).None?
    {
      if MatchAt(url, q, LearnModule).Some? {
        LearnModuleSound(url, q);
      }
    }
    SearchFinds(url, LearnModule, p);
  }

  /** `DetectCourse` finds nothing exactly when the address holds no course path. */
  lemma DetectCourseNone(url: string)
    ensures DetectCourse(url).None? <==> forall p: nat, slug, number :: !CoursePathAt(url, p, slug, number)
  {
    if DetectCourse(url).None? {
      forall p: nat, slug, number
        ensures !CoursePathAt(url, p, slug, number)
      {
        if CoursePathAt(url, p, slug, number) {
          LearnModuleComplete(url, p, slug, number);
        }
      }
    } else {
      DetectCourseSound(url);
    }
  }

  /** `currentUrl.match(/\/home\/module\/(\d+)/)?.[1]`: the module the page shows now. */
  function ModuleNumber(url: string): (r: Option<string>)
    ensures r.Some? ==> r.value != [] && AllIn(r.value, Digit)
  {
    var m := Search(url, HomeModule);
    if m.None? then None
    else
      HomeModuleSound(url, m.value.start);
      Some(m.value.group1)
  }

  /** What `ModuleNumber` finds is the leftmost module path of the address. */
  lemma ModuleNumberSound(url: string)
    requires ModuleNumber(url).Some?
    ensures exists p: nat :: ModulePathAt(url, p, ModuleNumber(url).value)
                             && forall q: nat, number | q < p :: !ModulePathAt(url, q, number)
  {
    var m := Search(url, HomeModule).value;
    HomeModuleSound(url, m.start);
    forall q: nat, number | q < m.start
      ensures !ModulePathAt(url, q, number)
    {
      if ModulePathAt(url, q, number) {
        HomeModuleComplete(url, q, number);
      }
    }
  }

  /** The leftmost module path of the address is what `ModuleNumber` finds. */
  lemma ModuleNumberLeftmost(url: string, p: nat, number: string)
    requires ModulePathAt(url, p, number)
    requires forall q: nat, n | q < p :: !ModulePathAt(url, q, n)
    ensures ModuleNumber(url) == Some(number)
  {
    HomeModuleComplete(url, p, number);
    forall q | 0 <= q < p
      ensures MatchAt(url, q, HomeModule).None?
    {
      if MatchAt(url, q, HomeModule).Some? {
        HomeModuleSound(url, q);
      }
    }
    SearchFinds(url, HomeModule, p);
  }

  /** `ModuleNumber` finds nothing exactly when the address holds no module path. */
  lemma ModuleNumberNone(url: string)
    ensures ModuleNumber(url).None? <==> forall p: nat, number :: !ModulePathAt(url, p, number)
  {
    if ModuleNumber(url).None? {
      forall p: nat, number
        ensures !ModulePathAt(url, p, number)
      {
        if ModulePathAt(url, p, number) {
          HomeModuleComplete(url, p, number);
        }
      }
    } else {
      ModuleNumberSound(url);
    }
  }

  /** A course path holds a module path: whenever the tracker detects a course, it also sees a module. */
  lemma CoursePathHasModule(url: string)
    requires DetectCourse(url).Some?
    ensures ModuleNumber(url).Some?
  {
    var c := DetectCourse(url).value;
    var p: nat :| CoursePathAt(url, p, c.slug, c.number) by {
      DetectCourseSound(url);
    }
    ModulePathInCoursePath(url, p, c.slug, c.number);
  }

  /** Any course path in the address gives `ModuleNumber` a module path to find. */
  lemma ModulePathInCoursePath(url: string, p: nat, slug: string, number: string)
    requires CoursePathAt(url, p, slug, number)
    ensures ModuleNumber(url).Some?
  {
    CoursePathModule(url, p, slug, number);
    HomeModuleComplete(url, p + 7 + |slug|, number);
  }

  // ---------------------------------------------------------------------------
  // Capturing the times shown on a module page.

  /** Which time a trimmed indicator text is for: `videos left` wins over `readings left`. */
  datatype Slot = VideoSlot | ReadingSlot | NoSlot

  function SlotOf(text: string): Slot
  {
    if Includes(text, "videos left") then VideoSlot
    else if Includes(text, "readings left") then ReadingSlot
    else NoSlot
  }

  /**
   * The time a slot holds after the indicator texts have been read in order:
   * the duration captured from the last text for that slot, or "" when no
   * text is for it.
   */
  function SlotTime(fragments: seq<string>, slot: Slot): string
  {
    if fragments == [] then ""
    else
      var text := Trim(fragments[|fragments| - 1]);
      if SlotOf(text) == slot then CaptureDuration(text)
      else SlotTime(fragments[..|fragments| - 1], slot)
  }

  /** The last indicator text for a slot decides its time, whatever came before. */
  lemma {:induction false} LastFragmentWins(fragments: seq<string>, slot: Slot, j: nat)
    requires j < |fragments| && SlotOf(Trim(fragments[j])) == slot
    requires forall k | j < k < |fragments| :: SlotOf(Trim(fragments[k])) != slot
    ensures SlotTime(fragments, slot) == CaptureDuration(Trim(fragments[j]))
    decreases |fragments|
  {
    if j < |fragments| - 1 {
      var prefix := fragments[..|fragments| - 1];
      assert forall k | j < k < |prefix| :: prefix[k] == fragments[k];
      LastFragmentWins(prefix, slot, j);
    }
  }

  /** A slot no text is for stays empty. */
  lemma {:induction false} NoFragmentEmpty(fragments: seq<string>, slot: Slot)
    requires forall k | 0 <= k < |fragments| :: SlotOf(Trim(fragments[k])) != slot
    ensures SlotTime(fragments, slot) == ""
    decreases |fragments|
  {
    if fragments != [] {
      var prefix := fragments[..|fragments| - 1];
      assert forall k | 0 <= k < |prefix| :: prefix[k] == fragments[k];
      NoFragmentEmpty(prefix, slot);
    }
  }

  /** A text with both `videos left` and `readings left` counts for the video time only. */
  lemma VideoTakesPrecedence(text: string)
    requires Includes(text, "videos left") && Includes(text, "readings left")
    ensures SlotOf(text) == VideoSlot
  {
  }

  /** A captured time is always one of the three duration shapes. */
  lemma {:induction false} SlotTimeWellFormed(fragments: seq<string>, slot: Slot)
    ensures SlotTime(fragments, slot) == "" || exists sh :: WellFormed(sh) && ShapeText(sh) == SlotTime(fragments, slot)
    decreases |fragments|
  {
    if fragments != [] && SlotOf(Trim(fragments[|fragments| - 1])) != slot {
      SlotTimeWellFormed(fragments[..|fragments| - 1], slot);
    }
  }

  /**
   * The `forEach` over the time indicators: each trimmed text overwrites the
   * video time (if it mentions `videos left`) or else the reading time (if it
   * mentions `readings left`) with the duration it holds, or "" if none.
   */
  method ExtractTimes(fragments: seq<string>) returns (videoTime: string, readingTime: string)
    ensures videoTime == SlotTime(fragments, VideoSlot)
    ensures readingTime == SlotTime(fragments, ReadingSlot)
  {
    videoTime, readingTime := "", "";
    var i := 0;
    while i < |fragments|
      invariant 0 <= i <= |fragments|
      invariant videoTime == SlotTime(fragments[..i], VideoSlot)
      invariant readingTime == SlotTime(fragments[..i], ReadingSlot)
    {
      var text := Trim(fragments[i]);
      SlotTimeStep(fragments, i, VideoSlot);
      SlotTimeStep(fragments, i, ReadingSlot);
      if Includes(text, "videos left") {
        videoTime := CaptureDuration(text);
      } else if Includes(text, "readings left") {
        readingTime := CaptureDuration(text);
      }
      i := i + 1;
    }
    assert fragments[..i] == fragments;
  }

  /** One more indicator text read: it decides its slot's time, and other slots keep theirs. */
  lemma SlotTimeStep(fragments: seq<string>, i: nat, slot: Slot)
    requires i < |fragments|
    ensures SlotTime(fragments[..i + 1], slot) ==
            if SlotOf(Trim(fragments[i])) == slot then CaptureDuration(Trim(fragments[i]))
            else SlotTime(fragments[..i], slot)
  {
    assert fragments[..i + 1][..i] == fragments[..i];
  }

  // ---------------------------------------------------------------------------
  // Saving.

  /**
   * The storage after the module's entry is written: the course's record gets
   * key `module_{number}` set to the entry, replacing any earlier one; every
   * other key of the record and every other course stays as it was.
   */
  function SaveEntry(data: map<string, CourseRecord>, storageKey: string, number: string, entry: ModuleTime)
    : (r: map<string, CourseRecord>)
    ensures r.Keys == data.Keys + {storageKey}
    ensures r[storageKey] == WithModuleTime(LoadRecord(data, storageKey), ModuleKey(number), entry)
    ensures forall k | k in data && k != storageKey :: r[k] == data[k]
  {
    data[storageKey := WithModuleTime(LoadRecord(data, storageKey), ModuleKey(number), entry)]
  }

  /**
   * The storage after one extraction on the page at `url`: nothing changes off
   * a module page or when neither time was found; otherwise the module the
   * address shows now gets the captured times, stamped `now`, and no name.
   */
  function AfterExtraction(data: map<string, CourseRecord>, storageKey: string, url: string,
                           fragments: seq<string>, now: int): map<string, CourseRecord>
  {
    var number := ModuleNumber(url);
    var videoTime := SlotTime(fragments, VideoSlot);
    var readingTime := SlotTime(fragments, ReadingSlot);
    if number.None? || (videoTime == "" && readingTime == "") then data
    else SaveEntry(data, storageKey, number.value, ModuleTime(videoTime, readingTime, "", now))
  }

  /**
   * What the content script ever stores: every entry has a time, each time is
   * "" or one of the three duration shapes, and no entry has a name.
   */
  ghost predicate TrackedEntry(mt: ModuleTime)
  {
    && HasTime(mt)
    && mt.moduleName == ""
    && (mt.videoTime == "" || exists sh :: WellFormed(sh) && ShapeText(sh) == mt.videoTime)
    && (mt.readingTime == "" || exists sh :: WellFormed(sh) && ShapeText(sh) == mt.readingTime)
  }

  ghost predicate TrackedStore(data: map<string, CourseRecord>)
  {
    forall c, m | c in data && m in data[c] :: TrackedEntry(data[c][m])
  }

  /** Extraction keeps the storage to entries of the kind the content script writes. */
  lemma AfterExtractionTracked(data: map<string, CourseRecord>, storageKey: string, url: string,
                               fragments: seq<string>, now: int)
    requires TrackedStore(data)
    ensures TrackedStore(AfterExtraction(data, storageKey, url, fragments, now))
  {
    var number := ModuleNumber(url);
    var videoTime := SlotTime(fragments, VideoSlot);
    var readingTime := SlotTime(fragments, ReadingSlot);
    if number.Some? && (videoTime != "" || readingTime != "") {
      SlotTimeWellFormed(fragments, VideoSlot);
      SlotTimeWellFormed(fragments, ReadingSlot);
      var entry := ModuleTime(videoTime, readingTime, "", now);
      assert TrackedEntry(entry);
      SaveEntryTracked(data, storageKey, number.value, entry);
    }
  }

  /** Saving an entry of the kind the content script writes keeps the storage to such entries. */
  lemma SaveEntryTracked(data: map<string, CourseRecord>, storageKey: string, number: string, entry: ModuleTime)
    requires TrackedStore(data) && TrackedEntry(entry)
    ensures TrackedStore(SaveEntry(data, storageKey, number, entry))
  {
    var r := SaveEntry(data, storageKey, number, entry);
    forall c, m | c in r && m in r[c]
      ensures TrackedEntry(r[c][m])
    {
      if c == storageKey && m != ModuleKey(number) {
        assert m in LoadRecord(data, storageKey);
      }
    }
  }

  /** Saving a module twice keeps only the second entry. */
  lemma SaveEntryOverwrites(data: map<string, CourseRecord>, storageKey: string, number: string,
                            first: ModuleTime, second: ModuleTime)
    ensures SaveEntry(SaveEntry(data, storageKey, number, first), storageKey, number, second)
            == SaveEntry(data, storageKey, number, second)
  {
    var once := SaveEntry(data, storageKey, number, first);
    var rec := LoadRecord(data, storageKey);
    assert LoadRecord(once, storageKey) == WithModuleTime(rec, ModuleKey(number), first);
    WithModuleTimeOverwrites(rec, ModuleKey(number), first, second);
    var a := SaveEntry(once, storageKey, number, second);
    var b := SaveEntry(data, storageKey, number, second);
    assert forall k | k in a :: a[k] == b[k];
  }

  /** Extracting twice on the same page at another time leaves only the second time stamp. */
  lemma ExtractionRepeats(data: map<string, CourseRecord>, storageKey: string, url: string,
                          fragments: seq<string>, first: int, second: int)
    ensures AfterExtraction(AfterExtraction(data, storageKey, url, fragments, first), storageKey, url, fragments, second)
            == AfterExtraction(data, storageKey, url, fragments, second)
  {
    var number := ModuleNumber(url);
    var videoTime := SlotTime(fragments, VideoSlot);
    var readingTime := SlotTime(fragments, ReadingSlot);
    if number.Some? && (videoTime != "" || readingTime != "") {
      SaveEntryOverwrites(data, storageKey, number.value, ModuleTime(videoTime, readingTime, "", first),
                          ModuleTime(videoTime, readingTime, "", second));
    }
  }

  // ---------------------------------------------------------------------------
  // The sidebar.

  /**
   * A module link of the sidebar: the text of its module title element
   * (`.css-xkyeje`), if it has one, and the children of that element's parent,
   * where the badge goes.
   */
  class ModuleLink {
    const title: Option<string>
    var container: seq<Node>

    constructor(title: Option<string>, container: seq<Node>)
      ensures this.title == title && this.container == container
    {
      this.title := title;
      this.container := container;
    }

    /**
     * The body of the `forEach` over the module links: a link whose title
     * names a module with a stored time gets that time as its badge.
     */
    method ShowTime(courseData: CourseRecord)
      modifies this
      ensures container == RenderedLink(courseData, title, old(container))
    {
      if title.Some? {
        var moduleMatch := Search(title.value, ModuleLabel);
        if moduleMatch.Some? {
          var key := ModuleKey(moduleMatch.value.group1);
          if key in courseData && HasTime(courseData[key]) {
            var moduleData := courseData[key];
            var timeInfo := CollectTimeInfo(moduleData.videoTime, moduleData.readingTime);
            container := ReplaceDisplay(container, ModuleDisplayClass, Join(timeInfo, Separator));
          }
        }
      }
    }
  }

  /** The course material header (`.css-6ecy9b`): its text and its parent's children. */
  class SectionHeader {
    const text: string
    var siblings: seq<Node>

    constructor(text: string, siblings: seq<Node>)
      ensures this.text == text && this.siblings == siblings
    {
      this.text := text;
      this.siblings := siblings;
    }
  }

  const CourseMaterialTitle := "Course Material"
  const TotalLabel := "Total: "

  /**
   * The badge a module link gets: the badge text of the entry of the module
   * its title names (`Module (\d+)`), when that entry holds a time.
   */
  function LinkBadge(courseData: CourseRecord, title: Option<string>): Option<string>
  {
    if title.None? then None
    else
      var m := Search(title.value, ModuleLabel);
      if m.None? then None
      else
        var key := ModuleKey(m.value.group1);
        if key in courseData && HasTime(courseData[key]) then Some(BadgeText(courseData[key])) else None
  }

  /** A link's children after rendering: the old badge replaced by the new one, or untouched. */
  function RenderedLink(courseData: CourseRecord, title: Option<string>, container: seq<Node>): seq<Node>
  {
    match LinkBadge(courseData, title)
    case None => container
    case Some(text) => ReplaceDisplay(container, ModuleDisplayClass, text)
  }

  /** Re-rendering a link with at most one badge changes nothing. */
  lemma RenderLinkIdempotent(courseData: CourseRecord, title: Option<string>, container: seq<Node>)
    requires CountClass(container, ModuleDisplayClass) <= 1
    ensures RenderedLink(courseData, title, RenderedLink(courseData, title, container))
            == RenderedLink(courseData, title, container)
    ensures CountClass(RenderedLink(courseData, title, container), ModuleDisplayClass) <= 1
  {
    var badge := LinkBadge(courseData, title);
    if badge.Some? {
      ReplaceDisplayTwice(container, ModuleDisplayClass, badge.value, badge.value);
    }
  }

  /** `updateModuleTimes`: every link of the sidebar gets its module's badge. */
  method UpdateModuleTimes(courseData: CourseRecord, links: seq<ModuleLink>)
    requires Distinct(links)
    modifies set l | l in links
    ensures forall i | 0 <= i < |links| ::
              links[i].container == RenderedLink(courseData, links[i].title, old(links[i].container))
  {
    var i := 0;
    while i < |links|
      invariant 0 <= i <= |links|
      invariant forall j | 0 <= j < i :: links[j].container == RenderedLink(courseData, links[j].title, old(links[j].container))
      invariant forall j | i <= j < |links| :: links[j].container == old(links[j].container)
    {
      links[i].ShowTime(courseData);
      i := i + 1;
    }
  }

  /** Which of an entry's times a total adds up. */
  datatype Category = Video | Reading

  function FieldOf(mt: ModuleTime, cat: Category): string
  {
    match cat
    case Video => mt.videoTime
    case Reading => mt.readingTime
  }

  /** The minutes an entry adds to a total: its time read as minutes, or nothing when it is empty. */
  function EntryMinutes(mt: ModuleTime, cat: Category): nat
  {
    if FieldOf(mt, cat) != "" then ParseTimeToMinutes(FieldOf(mt, cat)) else 0
  }

  /** The total of a category over all entries of a record, in no particular order. */
  ghost function TotalMinutes(rec: CourseRecord, cat: Category): nat
    decreases |rec|
  {
    if rec == map[] then 0
    else
      var k :| k in rec;
      EntryMinutes(rec[k], cat) + TotalMinutes(rec - {k}, cat)
  }

  /** The total does not depend on which entry is taken first. */
  lemma {:induction false} TotalMinutesRemove(rec: CourseRecord, k: string, cat: Category)
    requires k in rec
    ensures TotalMinutes(rec, cat) == EntryMinutes(rec[k], cat) + TotalMinutes(rec - {k}, cat)
    decreases |rec|
  {
    var j :| j in rec && TotalMinutes(rec, cat) == EntryMinutes(rec[j], cat) + TotalMinutes(rec - {j}, cat);
    if j != k {
      TotalMinutesRemove(rec - {j}, k, cat);
      TotalMinutesRemove(rec - {k}, j, cat);
      assert rec - {j} - {k} == rec - {k} - {j};
    }
  }

  /** A category's total is positive exactly when some entry contributes to it. */
  lemma {:induction false} TotalMinutesPositive(rec: CourseRecord, cat: Category)
    ensures TotalMinutes(rec, cat) > 0 <==> exists k :: k in rec && EntryMinutes(rec[k], cat) > 0
    decreases |rec|
  {
    if exists k :: k in rec && EntryMinutes(rec[k], cat) > 0 {
      var k :| k in rec && EntryMinutes(rec[k], cat) > 0;
      TotalMinutesRemove(rec, k, cat);
    } else if rec != map[] {
      var k :| k in rec;
      var smaller := rec - {k};
      TotalMinutesRemove(rec, k, cat);
      TotalMinutesPositive(smaller, cat);
      assert forall j | j in smaller :: smaller[j] == rec[j];
    }
  }

  /** After a module is saved, the total is the rest of the course plus that module's new time. */
  lemma TotalAfterSave(rec: CourseRecord, key: string, entry: ModuleTime, cat: Category)
    ensures TotalMinutes(WithModuleTime(rec, key, entry), cat) == TotalMinutes(rec - {key}, cat) + EntryMinutes(entry, cat)
  {
    var r := WithModuleTime(rec, key, entry);
    TotalMinutesRemove(r, key, cat);
    assert r - {key} == rec - {key};
  }

  /**
   * One part of the total display: the total formatted, or nothing for a zero
   * total; read back, it gives the total again.
   */
  function TotalPart(minutes: nat): (t: string)
    ensures t == "" <==> minutes == 0
    ensures ParseTimeToMinutes(t) == minutes
  {
    if minutes > 0 then
      FormatRoundTrip(minutes);
      FormatMinutesToTime(minutes)
    else
      ParseEmpty();
      ""
  }

  /** `Total: ` followed by the non-zero totals, formatted and joined like a badge. */
  function TotalText(videoMinutes: nat, readingMinutes: nat): string
  {
    TotalLabel + TimeText(TotalPart(videoMinutes), TotalPart(readingMinutes))
  }

  /** The course total display after rendering, when the header is the course material header. */
  ghost function RenderedTotal(courseData: CourseRecord, siblings: seq<Node>): seq<Node>
  {
    var videoMinutes := TotalMinutes(courseData, Video);
    var readingMinutes := TotalMinutes(courseData, Reading);
    if videoMinutes > 0 || readingMinutes > 0
    then ReplaceDisplay(siblings, TotalDisplayClass, TotalText(videoMinutes, readingMinutes))
    else siblings
  }

  /**
   * The `Object.values(courseData).forEach` of `updateCourseTotalTime`: the
   * totals it reaches are the totals over all entries, whatever order the
   * entries come in.
   */
  method AddUpTimes(courseData: CourseRecord) returns (totalVideoMinutes: nat, totalReadingMinutes: nat)
    ensures totalVideoMinutes == TotalMinutes(courseData, Video)
    ensures totalReadingMinutes == TotalMinutes(courseData, Reading)
  {
    var keys := ObjectKeys(courseData);
    totalVideoMinutes, totalReadingMinutes := 0, 0;
    ghost var rest := courseData;
    var i := 0;
    while i < |keys|
      invariant 0 <= i <= |keys|
      invariant rest == Unvisited(courseData, keys[..i])
      invariant totalVideoMinutes + TotalMinutes(rest, Video) == TotalMinutes(courseData, Video)
      invariant totalReadingMinutes + TotalMinutes(rest, Reading) == TotalMinutes(courseData, Reading)
    {
      var key := keys[i];
      var moduleData := courseData[key];
      VisitStep(courseData, keys, i, rest);
      TotalMinutesRemove(rest, key, Video);
      TotalMinutesRemove(rest, key, Reading);
      ghost var old_v, old_r := totalVideoMinutes, totalReadingMinutes;
      if moduleData.videoTime != "" {
        totalVideoMinutes := totalVideoMinutes + ParseTimeToMinutes(moduleData.videoTime);
      }
      if moduleData.readingTime != "" {
        totalReadingMinutes := totalReadingMinutes + ParseTimeToMinutes(moduleData.readingTime);
      }
      assert totalVideoMinutes == old_v + EntryMinutes(moduleData, Video);
      assert totalReadingMinutes == old_r + EntryMinutes(moduleData, Reading);
      rest := rest - {key};
      i := i + 1;
    }
    assert keys[..i] == keys;
    UnvisitedNone(courseData, keys);
  }

  /** The entries whose keys are not yet visited. */
  ghost function Unvisited(courseData: CourseRecord, visited: seq<string>): CourseRecord
  {
    map k | k in courseData && k !in visited :: courseData[k]
  }

  /** The next key is still unvisited, and visiting it takes exactly its entry out of the unvisited part. */
  lemma VisitStep(courseData: CourseRecord, keys: seq<string>, i: nat, rest: CourseRecord)
    requires Distinct(keys) && i < |keys| && keys[i] in courseData
    requires rest == Unvisited(courseData, keys[..i])
    ensures keys[i] in rest && rest[keys[i]] == courseData[keys[i]]
    ensures rest - {keys[i]} == Unvisited(courseData, keys[..i + 1])
  {
    var key := keys[i];
    assert keys[..i + 1] == keys[..i] + [key];
    assert key !in keys[..i] by { assert forall j | 0 <= j < i :: keys[..i][j] == keys[j]; }
    UnvisitedStep(courseData, keys[..i], key);
  }

  lemma UnvisitedStep(courseData: CourseRecord, visited: seq<string>, key: string)
    requires key in courseData && key !in visited
    ensures key in Unvisited(courseData, visited)
    ensures Unvisited(courseData, visited + [key]) == Unvisited(courseData, visited) - {key}
  {
  }

  lemma UnvisitedNone(courseData: CourseRecord, visited: seq<string>)
    requires forall k | k in courseData :: k in visited
    ensures Unvisited(courseData, visited) == map[]
  {
  }

  /**
   * `updateCourseTotalTime`: with the course material header present, adds up
   * the parsed times of all entries and, when either total is positive,
   * replaces the total display beside the header.
   */
  method UpdateCourseTotalTime(courseData: CourseRecord, header: SectionHeader?)
    modifies header
    ensures header != null && header.text == CourseMaterialTitle ==>
              header.siblings == RenderedTotal(courseData, old(header.siblings))
    ensures header != null && header.text != CourseMaterialTitle ==> header.siblings == old(header.siblings)
  {
    if header == null || header.text != CourseMaterialTitle {
      return;
    }
    var totalVideoMinutes, totalReadingMinutes := AddUpTimes(courseData);
    if totalVideoMinutes > 0 || totalReadingMinutes > 0 {
      var totalInfo := CollectTimeInfo(TotalPart(totalVideoMinutes), TotalPart(totalReadingMinutes));
      header.siblings := ReplaceDisplay(header.siblings, TotalDisplayClass, TotalLabel + Join(totalInfo, Separator));
    }
  }

  // ---------------------------------------------------------------------------
  // The tracker.

  class CourseraTimeTracker {
    var courseSlug: string
    var currentModule: string
    var storageKey: string
    /** Whether the tracker has scheduled extraction and rendering (`waitForPageLoad`). */
    var extractionScheduled: bool

    /** `new CourseraTimeTracker()` on the page at `url`. */
    constructor(url: string)
      ensures DetectCourse(url).Some? ==>
                && courseSlug == DetectCourse(url).value.slug
                && currentModule == DetectCourse(url).value.number
                && storageKey == StorageKey(courseSlug)
                && extractionScheduled
      ensures DetectCourse(url).None? ==>
                courseSlug == "" && currentModule == "" && storageKey == "" && !extractionScheduled
    {
      courseSlug, currentModule, storageKey := "", "", "";
      extractionScheduled := false;
      new;
      Init(url);
    }

    /** `init`: read the address, and schedule the work only when a module was found. */
    method Init(url: string)
      modifies this
      ensures DetectCourse(url).Some? ==>
                && courseSlug == DetectCourse(url).value.slug
                && currentModule == DetectCourse(url).value.number
                && storageKey == StorageKey(courseSlug)
      ensures DetectCourse(url).None? ==>
                courseSlug == old(courseSlug) && currentModule == old(currentModule) && storageKey == old(storageKey)
      ensures extractionScheduled == (old(extractionScheduled) || currentModule != "")
    {
      ExtractCourseInfo(url);
      if currentModule != "" {
        extractionScheduled := true;
      }
    }

    /** `extractCourseInfo`: on a course module address, take its slug, module and storage key. */
    method ExtractCourseInfo(url: string)
      modifies this
      ensures DetectCourse(url).Some? ==>
                && courseSlug == DetectCourse(url).value.slug
                && currentModule == DetectCourse(url).value.number
                && storageKey == StorageKey(courseSlug)
      ensures DetectCourse(url).None? ==>
                courseSlug == old(courseSlug) && currentModule == old(currentModule) && storageKey == old(storageKey)
      ensures extractionScheduled == old(extractionScheduled)
    {
      var found := DetectCourse(url);
      if found.Some? {
        courseSlug := found.value.slug;
        currentModule := found.value.number;
        storageKey := StorageKey(courseSlug);
      }
    }

    /**
     * `extractAndSaveModuleTime` on the page now at `currentUrl`, whose time
     * indicators read `fragments`, at time `now`.
     */
    method ExtractAndSaveModuleTime(currentUrl: string, fragments: seq<string>, now: int, store: Storage)
      modifies store
      ensures store.data == AfterExtraction(old(store.data), storageKey, currentUrl, fragments, now)
    {
      var moduleMatch := ModuleNumber(currentUrl);
      if moduleMatch.None? {
        return;
      }
      var actualCurrentModule := moduleMatch.value;
      var videoTime, readingTime := ExtractTimes(fragments);
      if videoTime != "" || readingTime != "" {
        SaveModuleTime(actualCurrentModule, videoTime, readingTime, now, store);
      }
    }

    /** `saveModuleTime`: read the course record, overwrite the module's entry, write it back. */
    method SaveModuleTime(moduleNumber: string, videoTime: string, readingTime: string, now: int, store: Storage)
      modifies store
      ensures store.data == SaveEntry(old(store.data), storageKey, moduleNumber, ModuleTime(videoTime, readingTime, "", now))
    {
      var result := store.Get(storageKey);
      var courseData := result.GetOr(map[]);
      courseData := courseData[ModuleKey(moduleNumber) := ModuleTime(videoTime, readingTime, "", now)];
      store.Set(storageKey, courseData);
    }

    /** `updateSidebar`: render the badges and the total from the course's stored record. */
    method UpdateSidebar(store: Storage, links: seq<ModuleLink>, header: SectionHeader?)
      requires Distinct(links)
      modifies set l | l in links
      modifies header
      ensures var courseData := LoadRecord(store.data, storageKey);
              forall i | 0 <= i < |links| ::
                links[i].container == RenderedLink(courseData, links[i].title, old(links[i].container))
      ensures header != null && header.text == CourseMaterialTitle ==>
                header.siblings == RenderedTotal(LoadRecord(store.data, storageKey), old(header.siblings))
      ensures header != null && header.text != CourseMaterialTitle ==> header.siblings == old(header.siblings)
    {
      var result := store.Get(storageKey);
      var courseData := result.GetOr(map[]);
      UpdateModuleTimes(courseData, links);
      UpdateCourseTotalTime(courseData, header);
    }
  }

  // ---------------------------------------------------------------------------
  // Saving and rendering together.

  /**
   * Once a module's times are saved, a render that reads the store after the
   * write shows exactly that module's badge on the sidebar link titled
   * `Module {number}` (optionally followed by more title text).  The save is
   * not awaited before the render, so a render started by the same callback
   * may still read the record as it was.
   */
  lemma SavedModuleShowsBadge(data: map<string, CourseRecord>, storageKey: string, number: string,
                              entry: ModuleTime, rest: string)
    requires number != [] && AllIn(number, Digit) && HasTime(entry)
    requires rest == [] || !IsDigit(rest[0])
    ensures LinkBadge(LoadRecord(SaveEntry(data, storageKey, number, entry), storageKey), Some("Module " + number + rest))
            == Some(BadgeText(entry))
  {
    var title := "Module " + number + rest;
    assert title[..7 + |number|] == "Module " + number;
    assert ModuleLabelAt(title, 0, number);
    ModuleLabelComplete(title, 0, number);
    SearchFinds(title, ModuleLabel, 0);
  }
}
