/**
 * The popup (popup.js): the `PopupManager` that tells the user whether the
 * active tab is a course page, lists the stored module times of that course
 * sorted by name, and clears all stored course data on request.
 *
 * The active tab's address is given to the model as an optional string (none
 * when the tab cannot be read), the user's answer to the confirmation as a
 * boolean, and the popup's page as fields holding what it shows.
 */
module Popup {
  import opened Wrappers
  import opened Matching
  import opened Text
  import opened Records
  import opened Tracker

  // ---------------------------------------------------------------------------
  // The active tab.

  /** `url.match(/coursera\.org\/learn\/([^\/]+)/)?.[1]`: the course slug of the address. */
  function CourseSlug(url: string): (r: Option<string>)
    ensures r.Some? ==> r.value != [] && AllIn(r.value, NotSlash)
  {
    var m := Search(url, CourseraLearn);
    if m.None? then None
    else
      CourseraLearnSound(url, m.value.start);
      Some(m.value.group1)
  }

  /** What `CourseSlug` finds is the slug of the leftmost `coursera.org/learn/` path. */
  lemma CourseSlugSound(url: string)
    requires CourseSlug(url).Some?
    ensures exists p: nat :: CourseSlugAt(url, p, CourseSlug(url).value)
                             && forall q: nat, slug | q < p :: !CourseSlugAt(url, q, slug)
  {
    var m := Search(url, CourseraLearn).value;
    CourseraLearnSound(url, m.start);
    forall q: nat, slug | q < m.start
      ensures !CourseSlugAt(url, q, slug)
    {
      if CourseSlugAt(url, q, slug) {
        CourseraLearnComplete(url, q, slug);
      }
    }
  }

  /** The slug of the leftmost `coursera.org/learn/` path is what `CourseSlug` finds. */
  lemma CourseSlugLeftmost(url: string, p: nat, slug: string)
    requires CourseSlugAt(url, p, slug)
    requires forall q: nat, s | q < p :: !CourseSlugAt(url, q, s)
    ensures CourseSlug(url) == Some(slug)
  {
    CourseraLearnComplete(url, p, slug);
    forall q | 0 <= q < p
      ensures MatchAt(url, q, CourseraLearn).None?
    {
      if MatchAt(url, q, CourseraLearn).Some? {
        CourseraLearnSound(url, q);
      }
    }
    SearchFinds(url, CourseraLearn, p);
  }

  /** `CourseSlug` finds nothing exactly when the address holds no `coursera.org/learn/{slug}`. */
  lemma CourseSlugNone(url: string)
    ensures CourseSlug(url).None? <==> forall p: nat, slug :: !CourseSlugAt(url, p, slug)
  {
    if CourseSlug(url).None? {
      forall p: nat, slug
        ensures !CourseSlugAt(url, p, slug)
      {
        if CourseSlugAt(url, p, slug) {
          CourseraLearnComplete(url, p, slug);
        }
      }
    } else {
      CourseSlugSound(url);
    }
  }

  datatype StatusKind = Active | Inactive

  /** The status line: its class (`status active` / `status inactive`) and its text. */
  datatype Status = Status(kind: StatusKind, message: string)

  const ActivePrefix := "Active on "
  const DetectedPrefix := "Coursera course detected: "
  const NotOnCourse := "Not on a Coursera course page"
  const NoTabAccess := "Unable to access current tab"
  const ClearedMessage := "All data cleared successfully"

  /** The course `checkCurrentTab` takes from the tab, if it takes one. */
  function TabCourse(tabUrl: Option<string>): Option<string>
  {
    if tabUrl.None? then None else CourseSlug(tabUrl.value)
  }

  /** The status `checkCurrentTab` shows for the tab. */
  function TabStatus(tabUrl: Option<string>): Status
  {
    if tabUrl.None? then Status(Inactive, NoTabAccess)
    else
      var course := CourseSlug(tabUrl.value);
      if course.Some? && ModuleNumber(tabUrl.value).Some? then Status(Active, ActivePrefix + ReplaceHyphens(course.value))
      else if course.Some? then Status(Active, DetectedPrefix + ReplaceHyphens(course.value))
      else Status(Inactive, NotOnCourse)
  }

  /**
   * The status is active exactly when the tab shows a course, and then names
   * that course with its hyphens read as spaces, after the prefix that says
   * whether a module is open.
   */
  lemma TabStatusNamesCourse(tabUrl: Option<string>)
    ensures TabStatus(tabUrl).kind == Active <==> TabCourse(tabUrl).Some?
    ensures TabCourse(tabUrl).Some? ==>
              var m := TabStatus(tabUrl).message;
              var prefix := if ModuleNumber(tabUrl.value).Some? then ActivePrefix else DetectedPrefix;
              && StartsWith(m, prefix)
              && |m| == |prefix| + |TabCourse(tabUrl).value|
              && forall i | 0 <= i < |TabCourse(tabUrl).value| ::
                   m[|prefix| + i] == if TabCourse(tabUrl).value[i] == '-' then ' ' else TabCourse(tabUrl).value[i]
    ensures TabCourse(tabUrl).None? ==>
              TabStatus(tabUrl).message == if tabUrl.None? then NoTabAccess else NotOnCourse
  {
    if TabCourse(tabUrl).Some? {
      var course := TabCourse(tabUrl).value;
      var prefix := if ModuleNumber(tabUrl.value).Some? then ActivePrefix else DetectedPrefix;
      assert TabStatus(tabUrl).message == prefix + ReplaceHyphens(course);
      PrefixedCourse(prefix, course);
    }
  }

  /** A prefix followed by the course with its hyphens read as spaces. */
  lemma PrefixedCourse(prefix: string, course: string)
    ensures var m := prefix + ReplaceHyphens(course);
            && StartsWith(m, prefix)
            && |m| == |prefix| + |course|
            && forall i | 0 <= i < |course| :: m[|prefix| + i] == if course[i] == '-' then ' ' else course[i]
  {
    var m := prefix + ReplaceHyphens(course);
    assert m[..|prefix|] == prefix;
    assert forall i | 0 <= i < |course| :: m[|prefix| + i] == ReplaceHyphens(course)[i];
  }

  // ---------------------------------------------------------------------------
  // The module list.

  /** One `[key, data]` pair of `Object.entries(courseData)`. */
  datatype Entry = Entry(key: string, data: ModuleTime)

  /** `data.moduleName || key`: the name a module is listed and sorted under. */
  function DisplayName(e: Entry): string
  {
    if e.data.moduleName != "" then e.data.moduleName else e.key
  }

  /** Whether a sequence of entries is exactly an enumeration of a record. */
  predicate EntriesOf(rec: CourseRecord, entries: seq<Entry>)
  {
    && (forall i | 0 <= i < |entries| :: entries[i].key in rec && rec[entries[i].key] == entries[i].data)
    && (forall k | k in rec :: Entry(k, rec[k]) in entries)
    && DistinctKeys(entries)
  }

  /** `Object.entries(courseData)`, in an order the model leaves open. */
  method ObjectEntries(rec: CourseRecord) returns (entries: seq<Entry>)
    ensures EntriesOf(rec, entries)
  {
    var keys := ObjectKeys(rec);
    entries := [];
    var i := 0;
    while i < |keys|
      invariant 0 <= i <= |keys|
      invariant |entries| == i
      invariant forall j | 0 <= j < i :: entries[j] == Entry(keys[j], rec[keys[j]])
    {
      entries := entries + [Entry(keys[i], rec[keys[i]])];
      i := i + 1;
    }
    forall k | k in rec
      ensures Entry(k, rec[k]) in entries
    {
      var j :| 0 <= j < |keys| && keys[j] == k;
      assert entries[j] == Entry(k, rec[k]);
    }
  }

  /** `.filter(([key, data]) => data && (data.videoTime || data.readingTime))`. */
  function Timed(entries: seq<Entry>): (r: seq<Entry>)
    ensures forall e :: e in r <==> e in entries && HasTime(e.data)
    ensures forall e :: multiset(r)[e] == if HasTime(e.data) then multiset(entries)[e] else 0
    ensures |r| <= |entries|
  {
    if entries == [] then []
    else
      assert entries == [entries[0]] + entries[1..];
      (if HasTime(entries[0].data) then [entries[0]] else []) + Timed(entries[1..])
  }

  /** No two entries share a key. */
  predicate DistinctKeys(s: seq<Entry>)
  {
    forall i, j | 0 <= i < j < |s| :: s[i].key != s[j].key
  }

  /** Entries with distinct keys are each there at most once. */
  lemma {:induction false} DistinctKeysOnce(s: seq<Entry>, e: Entry)
    requires DistinctKeys(s)
    ensures multiset(s)[e] <= 1
  {
    if s != [] {
      assert s == [s[0]] + s[1..];
      assert DistinctKeys(s[1..]) by {
        forall i, j | 0 <= i < j < |s[1..]|
          ensures s[1..][i].key != s[1..][j].key
        {
          assert s[1..][i] == s[i + 1] && s[1..][j] == s[j + 1];
        }
      }
      DistinctKeysOnce(s[1..], e);
      if s[0] == e {
        assert e !in s[1..] by {
          forall k | 0 <= k < |s[1..]|
            ensures s[1..][k] != e
          {
            assert s[1..][k] == s[k + 1];
          }
        }
      }
    }
  }

  /** An element at two positions is there at least twice. */
  lemma TwiceAt(s: seq<Entry>, i: nat, j: nat)
    requires i < j < |s| && s[i] == s[j]
    ensures multiset(s)[s[i]] >= 2
  {
    assert s == s[..j] + s[j..];
    assert s[..j] == s[..i] + s[i..j] && s[i..j][0] == s[i];
    assert s[j..][0] == s[j];
  }

  predicate SortedByName(s: seq<Entry>)
  {
    forall i, j | 0 <= i < j < |s| :: LexLe(DisplayName(s[i]), DisplayName(s[j]))
  }

  lemma ConsSorted(e: Entry, s: seq<Entry>)
    requires SortedByName(s)
    requires forall x | x in s :: LexLe(DisplayName(e), DisplayName(x))
    ensures SortedByName([e] + s)
  {
    var r := [e] + s;
    forall i, j | 0 <= i < j < |r|
      ensures LexLe(DisplayName(r[i]), DisplayName(r[j]))
    {
      if i > 0 {
        assert r[i] == s[i - 1] && r[j] == s[j - 1];
      } else {
        assert r[j] == s[j - 1] && r[j] in s;
      }
    }
  }

  /** Inserts an entry before the first entry whose name it does not sort after. */
  function InsertByName(e: Entry, s: seq<Entry>): (r: seq<Entry>)
    requires SortedByName(s)
    ensures SortedByName(r)
    ensures multiset(r) == multiset(s) + multiset{e}
  {
    if s == [] then [e]
    else if LexLe(DisplayName(e), DisplayName(s[0])) then
      InsertedFirst(e, s);
      [e] + s
    else
      var rest := InsertByName(e, s[1..]);
      InsertedLater(e, s, rest);
      [s[0]] + rest
  }

  /** An entry that sorts before the head of a sorted list can go in front of it. */
  lemma InsertedFirst(e: Entry, s: seq<Entry>)
    requires SortedByName(s) && s != [] && LexLe(DisplayName(e), DisplayName(s[0]))
    ensures SortedByName([e] + s)
  {
    forall x | x in s
      ensures LexLe(DisplayName(e), DisplayName(x))
    {
      var j :| 0 <= j < |s| && s[j] == x;
      if j > 0 {
        LexLeTransitive(DisplayName(e), DisplayName(s[0]), DisplayName(x));
      }
    }
    ConsSorted(e, s);
  }

  /** An entry that sorts after the head of a sorted list goes into its tail. */
  lemma InsertedLater(e: Entry, s: seq<Entry>, rest: seq<Entry>)
    requires SortedByName(s) && s != [] && !LexLe(DisplayName(e), DisplayName(s[0]))
    requires SortedByName(rest) && multiset(rest) == multiset(s[1..]) + multiset{e}
    ensures SortedByName([s[0]] + rest)
    ensures multiset([s[0]] + rest) == multiset(s) + multiset{e}
  {
    LexLeTotal(DisplayName(e), DisplayName(s[0]));
    forall x | x in rest
      ensures LexLe(DisplayName(s[0]), DisplayName(x))
    {
      assert x in multiset(rest);
      if x != e {
        assert x in multiset(s[1..]);
        var j :| 0 <= j < |s[1..]| && s[1..][j] == x;
        assert s[j + 1] == x;
      }
    }
    ConsSorted(s[0], rest);
    assert s == [s[0]] + s[1..];
  }

  /** `.sort` by `localeCompare` of the display names, as an insertion sort. */
  function SortByName(s: seq<Entry>): (r: seq<Entry>)
    ensures SortedByName(r)
    ensures multiset(r) == multiset(s)
  {
    if s == [] then []
    else
      assert s == [s[0]] + s[1..];
      InsertByName(s[0], SortByName(s[1..]))
  }

  /** A stored module is listed at most once: entries with one key are one entry, and the filter and the sort keep multiplicities. */
  lemma ListedOnce(rec: CourseRecord, entries: seq<Entry>, listed: seq<Entry>)
    requires EntriesOf(rec, entries)
    requires multiset(listed) == multiset(Timed(entries))
    ensures DistinctKeys(listed)
  {
    forall i, j | 0 <= i < j < |listed|
      ensures listed[i].key != listed[j].key
    {
      if listed[i].key == listed[j].key {
        SameKeySameEntry(rec, entries, listed, i, j);
        TwiceAt(listed, i, j);
        DistinctKeysOnce(entries, listed[i]);
        assert false;
      }
    }
  }

  /** Two listed entries with one key are the same stored entry. */
  lemma SameKeySameEntry(rec: CourseRecord, entries: seq<Entry>, listed: seq<Entry>, i: nat, j: nat)
    requires EntriesOf(rec, entries)
    requires multiset(listed) == multiset(Timed(entries))
    requires i < j < |listed| && listed[i].key == listed[j].key
    ensures listed[i] == listed[j]
  {
    assert listed[i] in multiset(listed) && listed[j] in multiset(listed);
    var a :| 0 <= a < |entries| && entries[a] == listed[i];
    var b :| 0 <= b < |entries| && entries[b] == listed[j];
  }

  /**
   * The entries the popup lists for a record: whatever order `Object.entries`
   * gives, exactly the entries with some time, sorted by name, with no
   * module listed twice.
   */
  lemma ListedEntries(rec: CourseRecord, entries: seq<Entry>)
    requires EntriesOf(rec, entries)
    ensures var listed := SortByName(Timed(entries));
            && SortedByName(listed)
            && (forall e :: e in listed <==> e.key in rec && e.data == rec[e.key] && HasTime(e.data))
            && multiset(listed) == multiset(Timed(entries))
            && |listed| == |Timed(entries)|
            && DistinctKeys(listed)
  {
    var listed := SortByName(Timed(entries));
    ListedOnce(rec, entries, listed);
    ListedExactly(rec, entries);
    assert |listed| == |multiset(listed)|;
  }

  /** The listed entries are exactly the stored entries with a time. */
  lemma ListedExactly(rec: CourseRecord, entries: seq<Entry>)
    requires EntriesOf(rec, entries)
    ensures forall e :: e in SortByName(Timed(entries)) <==> e.key in rec && e.data == rec[e.key] && HasTime(e.data)
  {
    var listed := SortByName(Timed(entries));
    forall e
      ensures e in listed <==> e.key in rec && e.data == rec[e.key] && HasTime(e.data)
    {
      assert e in listed <==> e in multiset(listed);
      if e.key in rec && e.data == rec[e.key] && HasTime(e.data) {
        assert Entry(e.key, rec[e.key]) in entries;
      }
      if e in entries {
        var i :| 0 <= i < |entries| && entries[i] == e;
      }
    }
  }

  /** What one `.module-item` shows. */
  datatype ListItem = ModuleItem(name: string, time: string) | NoModuleData

  /** The time line of a module item: its badge text, or `No time data`. */
  function ModuleTimeText(mt: ModuleTime): (t: string)
    ensures HasTime(mt) ==> t == BadgeText(mt)
    ensures !HasTime(mt) ==> t == "No time data"
  {
    var parts := TimeParts(mt.videoTime, mt.readingTime);
    if |parts| > 0 then Join(parts, Separator) else "No time data"
  }

  /** The list element after `displayCourseData`: the notice, or one item per listed entry. */
  function ListItems(listed: seq<Entry>): (items: seq<ListItem>)
  {
    if listed == [] then [NoModuleData]
    else seq(|listed|, i requires 0 <= i < |listed| => ModuleItem(DisplayName(listed[i]), ModuleTimeText(listed[i].data)))
  }

  /**
   * Every item of a displayed list shows the same badge text the content script
   * writes into the sidebar for that module, so `No time data` never shows.
   */
  lemma ListedItemsShowBadges(rec: CourseRecord, entries: seq<Entry>)
    requires EntriesOf(rec, entries)
    ensures var listed := SortByName(Timed(entries));
            forall i | 0 <= i < |listed| ::
              && listed[i].key in rec
              && ListItems(listed)[i] == ModuleItem(DisplayName(listed[i]), BadgeText(rec[listed[i].key]))
              && BadgeText(rec[listed[i].key]) != ""
  {
    var listed := SortByName(Timed(entries));
    ListedExactly(rec, entries);
    forall i | 0 <= i < |listed|
      ensures && listed[i].key in rec
              && ListItems(listed)[i] == ModuleItem(DisplayName(listed[i]), BadgeText(rec[listed[i].key]))
              && BadgeText(rec[listed[i].key]) != ""
    {
      assert listed[i] in listed;
      ItemShowsBadge(rec, listed, i);
    }
  }

  /** A listed entry that is stored with a time shows its badge text. */
  lemma ItemShowsBadge(rec: CourseRecord, listed: seq<Entry>, i: nat)
    requires i < |listed| && listed[i].key in rec && listed[i].data == rec[listed[i].key] && HasTime(listed[i].data)
    ensures ListItems(listed)[i] == ModuleItem(DisplayName(listed[i]), BadgeText(rec[listed[i].key]))
    ensures BadgeText(rec[listed[i].key]) != ""
  {
  }

  /**
   * `replace(/-/g, ' ').replace(/\b\w/g, l => l.toUpperCase())`: the course
   * name as a title.  Hyphens become spaces and the first word character of
   * each word is upper-cased; a hyphen separates words like any other
   * non-word character.
   */
  function CourseTitle(course: string): (title: string)
    ensures |title| == |course|
    ensures forall i | 0 <= i < |course| ::
              title[i] == if course[i] == '-' then ' '
                          else if IsWordChar(course[i]) && (i == 0 || !IsWordChar(course[i - 1])) then UpperWordChar(course[i])
                          else course[i]
  {
    var spaced := ReplaceHyphens(course);
    var title := CapitalizeWords(spaced);
    forall i | 0 <= i < |course|
      ensures title[i] == if course[i] == '-' then ' '
                          else if IsWordChar(course[i]) && (i == 0 || !IsWordChar(course[i - 1])) then UpperWordChar(course[i])
                          else course[i]
    {
      assert spaced[i] == if course[i] == '-' then ' ' else course[i];
      if i > 0 {
        assert spaced[i - 1] == if course[i - 1] == '-' then ' ' else course[i - 1];
      }
    }
    title
  }

  // ---------------------------------------------------------------------------
  // Clearing.

  /** The storage keys of course records. */
  function CourseKeys(keys: seq<string>): (r: seq<string>)
    ensures forall k :: k in r <==> k in keys && StartsWith(k, CoursePrefix)
  {
    if keys == [] then []
    else (if StartsWith(keys[0], CoursePrefix) then [keys[0]] else []) + CourseKeys(keys[1..])
  }

  /** The storage after clearing: exactly the course records are gone, everything else stays. */
  function WithoutCourseData(data: map<string, CourseRecord>): (r: map<string, CourseRecord>)
    ensures forall k :: k in r <==> k in data && !StartsWith(k, CoursePrefix)
    ensures forall k | k in r :: r[k] == data[k]
  {
    map k | k in data && !StartsWith(k, CoursePrefix) :: data[k]
  }

  /** Whether the popup finds a non-empty record for the course. */
  predicate HasCourseData(data: map<string, CourseRecord>, course: string)
  {
    StorageKey(course) in data && |data[StorageKey(course)]| > 0
  }

  /** After clearing, no course has data left. */
  lemma ClearedHasNoCourseData(data: map<string, CourseRecord>, course: string)
    ensures !HasCourseData(WithoutCourseData(data), course)
  {
  }

  // ---------------------------------------------------------------------------
  // The popup.

  class PopupManager {
    var currentCourse: Option<string>
    var status: Status
    /** Whether `#emptyState` is displayed. */
    var emptyStateShown: bool
    /** Whether `#courseInfo` is displayed. */
    var courseInfoShown: bool
    /** The text of `#courseName`. */
    var courseName: string
    /** The children of `#moduleList`. */
    var moduleList: seq<ListItem>

    /** `new PopupManager()` with the active tab at `tabUrl`: check the tab, then load the course's data. */
    constructor(tabUrl: Option<string>, store: Storage)
      ensures currentCourse == TabCourse(tabUrl)
      ensures status == TabStatus(tabUrl)
      ensures emptyStateShown == (TabCourse(tabUrl).None? || !HasCourseData(store.data, TabCourse(tabUrl).value))
      ensures courseInfoShown == (TabCourse(tabUrl).Some? && HasCourseData(store.data, TabCourse(tabUrl).value))
      ensures courseInfoShown ==>
                && courseName == CourseTitle(TabCourse(tabUrl).value)
                && exists entries :: EntriesOf(store.data[StorageKey(TabCourse(tabUrl).value)], entries)
                                     && moduleList == ListItems(SortByName(Timed(entries)))
      ensures !courseInfoShown ==> courseName == "" && moduleList == []
    {
      currentCourse := None;
      status := Status(Inactive, "");
      emptyStateShown := false;
      courseInfoShown := false;
      courseName := "";
      moduleList := [];
      new;
      CheckCurrentTab(tabUrl);
      LoadCourseData(store);
    }

    /** `updateStatus`. */
    method UpdateStatus(kind: StatusKind, message: string)
      modifies this
      ensures status == Status(kind, message)
      ensures currentCourse == old(currentCourse) && emptyStateShown == old(emptyStateShown)
      ensures courseInfoShown == old(courseInfoShown) && courseName == old(courseName) && moduleList == old(moduleList)
    {
      status := Status(kind, message);
    }

    /**
     * `checkCurrentTab`: take the course from the tab, if it shows one, and say
     * so in the status line.  A tab that shows no course leaves the current
     * course as it was.
     */
    method CheckCurrentTab(tabUrl: Option<string>)
      modifies this
      ensures status == TabStatus(tabUrl)
      ensures currentCourse == if TabCourse(tabUrl).Some? then TabCourse(tabUrl) else old(currentCourse)
      ensures emptyStateShown == old(emptyStateShown) && courseInfoShown == old(courseInfoShown)
      ensures courseName == old(courseName) && moduleList == old(moduleList)
    {
      if tabUrl.None? {
        UpdateStatus(Inactive, NoTabAccess);
        return;
      }
      var url := tabUrl.value;
      var courseMatch := CourseSlug(url);
      var moduleMatch := ModuleNumber(url);
      if courseMatch.Some? && moduleMatch.Some? {
        currentCourse := courseMatch;
        UpdateStatus(Active, ActivePrefix + ReplaceHyphens(currentCourse.value));
      } else if courseMatch.Some? {
        currentCourse := courseMatch;
        UpdateStatus(Active, DetectedPrefix + ReplaceHyphens(currentCourse.value));
      } else {
        UpdateStatus(Inactive, NotOnCourse);
      }
    }

    /**
     * `loadCourseData`: without a course, or without a non-empty record for it,
     * show the empty state; otherwise display the record.
     */
    method LoadCourseData(store: Storage)
      modifies this
      ensures currentCourse == old(currentCourse) && status == old(status)
      ensures currentCourse.None? || !HasCourseData(store.data, currentCourse.value) ==>
                emptyStateShown && courseInfoShown == old(courseInfoShown)
                && courseName == old(courseName) && moduleList == old(moduleList)
      ensures currentCourse.Some? && HasCourseData(store.data, currentCourse.value) ==>
                && emptyStateShown == old(emptyStateShown)
                && courseInfoShown
                && courseName == CourseTitle(currentCourse.value)
                && exists entries :: EntriesOf(store.data[StorageKey(currentCourse.value)], entries)
                                     && moduleList == ListItems(SortByName(Timed(entries)))
    {
      if currentCourse.None? {
        emptyStateShown := true;
        return;
      }
      var storageKey := StorageKey(currentCourse.value);
      var courseData := store.Get(storageKey);
      if courseData.Some? && |courseData.value| > 0 {
        DisplayCourseData(courseData.value);
      } else {
        emptyStateShown := true;
      }
    }

    /** `displayCourseData`: the course title, then one item per timed entry in name order. */
    method DisplayCourseData(courseData: CourseRecord)
      requires currentCourse.Some?
      modifies this
      ensures currentCourse == old(currentCourse) && status == old(status) && emptyStateShown == old(emptyStateShown)
      ensures courseInfoShown
      ensures courseName == CourseTitle(currentCourse.value)
      ensures exists entries :: EntriesOf(courseData, entries) && moduleList == ListItems(SortByName(Timed(entries)))
    {
      courseName := CourseTitle(currentCourse.value);
      moduleList := [];
      var entries := ObjectEntries(courseData);
      var sortedModules := SortByName(Timed(entries));
      moduleList := RenderList(sortedModules);
      courseInfoShown := true;
    }

    /**
     * The list element's new children: the `No module data found` notice for
     * an empty list, else one `createModuleItem` per entry, in order.
     */
    method RenderList(sortedModules: seq<Entry>) returns (items: seq<ListItem>)
      ensures items == ListItems(sortedModules)
    {
      if |sortedModules| == 0 {
        return [NoModuleData];
      }
      items := [];
      var i := 0;
      while i < |sortedModules|
        invariant 0 <= i <= |sortedModules|
        invariant |items| == i
        invariant forall j | 0 <= j < i :: items[j] == ListItems(sortedModules)[j]
      {
        var moduleItem := CreateModuleItem(DisplayName(sortedModules[i]), sortedModules[i].data);
        items := items + [moduleItem];
        i := i + 1;
      }
    }

    /** `createModuleItem`: the name, and the entry's times joined, or `No time data`. */
    method CreateModuleItem(moduleName: string, moduleData: ModuleTime) returns (item: ListItem)
      ensures item == ModuleItem(moduleName, ModuleTimeText(moduleData))
    {
      var timeInfo := CollectTimeInfo(moduleData.videoTime, moduleData.readingTime);
      var time := if |timeInfo| > 0 then Join(timeInfo, Separator) else "No time data";
      item := ModuleItem(moduleName, time);
    }

    /**
     * `clearAllData`: once the user confirms, remove every course record from
     * the storage, reload the course data and report success; nothing happens
     * when the user declines.
     */
    method ClearAllData(confirmed: bool, store: Storage)
      modifies this, store
      ensures !confirmed ==> store.data == old(store.data) && status == old(status) && emptyStateShown == old(emptyStateShown)
      ensures confirmed ==> store.data == WithoutCourseData(old(store.data))
      ensures confirmed ==> status == Status(Active, ClearedMessage) && emptyStateShown
      ensures currentCourse == old(currentCourse)
      ensures courseInfoShown == old(courseInfoShown) && courseName == old(courseName) && moduleList == old(moduleList)
    {
      if !confirmed {
        return;
      }
      var allKeys := ObjectKeys(store.data);
      var courseraKeys := CourseKeys(allKeys);
      if |courseraKeys| > 0 {
        store.Remove(courseraKeys);
      }
      assert store.data == WithoutCourseData(old(store.data));
      if currentCourse.Some? {
        ClearedHasNoCourseData(old(store.data), currentCourse.value);
      }
      LoadCourseData(store);
      UpdateStatus(Active, ClearedMessage);
    }
  }

  // ---------------------------------------------------------------------------
  // The two scripts on the same course page.

  /** The address of a module page of a course. */
  function ModulePageUrl(slug: string, number: string): string
  {
    "https://www.coursera.org/learn/" + slug + "/home/module/" + number
  }

  const Host := "https://www.coursera.org"

  /** The host part of a page address has no `l` up to its end and no `c` before `coursera`. */
  lemma HostLetters(url: string)
    requires StartsWith(url, Host + "/")
    ensures forall k | 0 <= k <= 24 :: url[k] != 'l'
    ensures forall k | 0 <= k < 12 :: url[k] != 'c'
  {
    assert forall k | 0 <= k <= 24 :: url[k] == (Host + "/")[k];
  }

  /** No course path starts before a position up to which the address has no `l`. */
  lemma NoCoursePathBefore(url: string, bound: nat)
    requires bound < |url| && forall k | 0 <= k <= bound :: url[k] != 'l'
    ensures forall q: nat, s, n | q < bound :: !CoursePathAt(url, q, s, n)
  {
    forall q: nat, s, n | q < bound
      ensures !CoursePathAt(url, q, s, n)
    {
      if CoursePathAt(url, q, s, n) {
        LiteralChar(url, q, "/learn/" + s, 1);
      }
    }
  }

  /** No `coursera.org/learn/` path starts before a position up to which the address has no `c`. */
  lemma NoCourseSlugBefore(url: string, bound: nat)
    requires bound <= |url| && forall k | 0 <= k < bound :: url[k] != 'c'
    ensures forall q: nat, s | q < bound :: !CourseSlugAt(url, q, s)
  {
    forall q: nat, s | q < bound
      ensures !CourseSlugAt(url, q, s)
    {
      if CourseSlugAt(url, q, s) {
        LiteralChar(url, q, "coursera.org/learn/" + s, 0);
      }
    }
  }

  /** The layout of a module page address. */
  lemma ModulePageLayout(slug: string, number: string)
    requires slug != [] && AllIn(slug, NotSlash) && number != [] && AllIn(number, Digit)
    ensures var url := ModulePageUrl(slug, number);
            StartsWith(url, Host + "/") && CoursePathAt(url, 24, slug, number) && CourseSlugAt(url, 12, slug)
  {
    ModulePageHost(slug, number);
    ModulePageCoursePath(slug, number);
    ModulePageCourseSlug(slug, number);
  }

  /** How the fixed front of a module page address splits. */
  lemma ModulePageFront()
    ensures "https://www.coursera.org/learn/" == "https://www." + "coursera.org/learn/"
    ensures "https://www.coursera.org/learn/" == Host + "/learn/"
    ensures "https://www.coursera.org/learn/" == Host + "/" + "learn/"
  {
  }

  /** `y` sits right after `x` in `x + y + z`. */
  lemma LiteralInside(x: string, y: string, z: string)
    ensures LiteralAt(x + y + z, |x|, y)
  {
    assert (x + y + z)[|x|..|x| + |y|] == y;
  }

  lemma ModulePageHost(slug: string, number: string)
    ensures StartsWith(ModulePageUrl(slug, number), Host + "/")
  {
    ModulePageFront();
    assert ModulePageUrl(slug, number) == "" + (Host + "/") + ("learn/" + slug + "/home/module/" + number);
    LiteralInside("", Host + "/", "learn/" + slug + "/home/module/" + number);
  }

  lemma ModulePageCoursePath(slug: string, number: string)
    requires slug != [] && AllIn(slug, NotSlash) && number != [] && AllIn(number, Digit)
    ensures CoursePathAt(ModulePageUrl(slug, number), 24, slug, number)
  {
    ModulePageFront();
    var learn, home := "/learn/" + slug, "/home/module/" + number;
    assert ModulePageUrl(slug, number) == Host + learn + home;
    LiteralInside(Host, learn, home);
    LiteralInside(Host + learn, home, "");
  }

  lemma ModulePageCourseSlug(slug: string, number: string)
    requires slug != [] && AllIn(slug, NotSlash)
    ensures CourseSlugAt(ModulePageUrl(slug, number), 12, slug)
  {
    ModulePageFront();
    var url := ModulePageUrl(slug, number);
    var learn, home := "coursera.org/learn/" + slug, "/home/module/" + number;
    assert url == "https://www." + learn + home;
    LiteralInside("https://www.", learn, home);
    LiteralInside("https://www." + learn, home, "");
    LiteralChar(url, 31 + |slug|, home, 0);
  }

  /** On a module page the tracker reads the page's course and module. */
  lemma TrackerOnModulePage(slug: string, number: string)
    requires slug != [] && AllIn(slug, NotSlash) && number != [] && AllIn(number, Digit)
    ensures DetectCourse(ModulePageUrl(slug, number)) == Some(CoursePath(slug, number))
  {
    var url := ModulePageUrl(slug, number);
    ModulePageLayout(slug, number);
    HostLetters(url);
    NoCoursePathBefore(url, 24);
    DetectCourseLeftmost(url, 24, slug, number);
  }

  /** On a module page the popup reads the page's course. */
  lemma PopupOnModulePage(slug: string, number: string)
    requires slug != [] && AllIn(slug, NotSlash) && number != [] && AllIn(number, Digit)
    ensures CourseSlug(ModulePageUrl(slug, number)) == Some(slug)
  {
    var url := ModulePageUrl(slug, number);
    ModulePageLayout(slug, number);
    HostLetters(url);
    NoCourseSlugBefore(url, 12);
    CourseSlugLeftmost(url, 12, slug);
  }

  /**
   * On a module page the content script and the popup agree: the tracker reads
   * the course and module, the popup reads the same course as active on a
   * module, and both use the same storage key.
   */
  lemma ScriptsAgreeOnModulePage(slug: string, number: string)
    requires slug != [] && AllIn(slug, NotSlash) && number != [] && AllIn(number, Digit)
    ensures DetectCourse(ModulePageUrl(slug, number)) == Some(CoursePath(slug, number))
    ensures CourseSlug(ModulePageUrl(slug, number)) == Some(slug)
    ensures TabStatus(Some(ModulePageUrl(slug, number))) == Status(Active, ActivePrefix + ReplaceHyphens(slug))
  {
    TrackerOnModulePage(slug, number);
    PopupOnModulePage(slug, number);
    CoursePathHasModule(ModulePageUrl(slug, number));
  }
}
