# Coursera module time tracker, modelled in Dafny

The extension has two scripts.

The content script (`content.js`) runs on a Coursera course page whose address has the shape `/learn/{slug}/home/module/{n}`:

- It reads the course slug and the module number from the address.
- It picks the remaining video and reading times out of the page's
  "… videos left" / "… readings left" indicators.
- It stores them under `module_{n}` in the course's record, which lives under
  the key `coursera_{slug}` in the extension's local storage.
- It annotates the course sidebar. Every module link gets a badge such as
  `📹 1h 20m • 📖 30m`, and the "Course Material" header gets a
  `Total: …` line that adds up all stored modules.

The popup (`popup.js`) does three things:

- It says whether the active tab is a course page, and on which course.
- It lists the stored module times of that course, sorted by name.
- It clears every stored course record when the user confirms.

This project models both scripts.

The modules are:

- `Matching`: hand-written matchers for each searching regular expression the scripts use, all with leftmost-search semantics. The two global replaces, `/-/g` and `/\b\w/g`, are whole-text rewrites in `Text`. The four address and label patterns each have a structural description of what they accept, with soundness and completeness lemmas. The duration capture pattern has the same in `Duration`, stated over duration shapes. The two digit patterns of `parseTimeToMinutes` are described only through the lemmas about the texts that function reads.
- `Text`: decimal text, `join`, hyphen replacement, title case, and the string order used for sorting.
- `Duration`: `parseTimeToMinutes`, `formatMinutesToTime` and the capture of a duration from an indicator text.
- `Records`: module entries, storage keys, badge text and the storage.
- `Sidebar`: the sidebar children that the badges and the total are written into.
- `Tracker`: the `CourseraTimeTracker` class and its extraction, saving and rendering.
- `Popup`: the `PopupManager` class.

`Storage` holds the storage as a map from storage key to course record. Each course record maps module keys to entries.

## Model

| member | source | states |
|---|---|---|
| Matching.RunEnd | content.js:82 | The end of the longest run of a character class from a position: every character before it is in the class, the one at it is not. |
| Matching.Trim | content.js:79 | `trim` leaves a text with no white space at either end, found inside the original with only white space before and after it. |
| Matching.Includes | content.js:80 | `includes` holds exactly when the literal occurs at some position. |
| Matching.SearchFrom | content.js:20 | `match` returns the leftmost match: a match starting at the returned position, none before it, and no match anywhere when it returns nothing. |
| Matching.SearchFinds | content.js:60 | A match at a position with no match before it is the one `match` returns. |
| Matching.LearnModuleSound | content.js:20 | A match of `/\/learn\/([^\/]+)\/home\/module\/(\d+)/` is a course path: `/learn/`, a slug without `/`, `/home/module/`, and the whole following digit run as the number. |
| Matching.LearnModuleComplete | content.js:20 | Every course path at a position is matched there, with the slug and number as its two groups. |
| Matching.HomeModuleSound | content.js:60 | A match of `/\/home\/module\/(\d+)/` is `/home/module/` followed by a maximal digit run, its group. |
| Matching.HomeModuleComplete | content.js:60 | Every `/home/module/{digits}` with a maximal digit run is matched there. |
| Matching.CourseraLearnSound | popup.js:23 | A match of `/coursera\.org\/learn\/([^\/]+)/` is `coursera.org/learn/` followed by a maximal non-empty run without `/`, its group. |
| Matching.CourseraLearnComplete | popup.js:23 | Every such path is matched there. |
| Matching.ModuleLabelSound | content.js:157 | A match of `/Module (\d+)/` is `Module ` followed by a maximal digit run, its group. |
| Matching.ModuleLabelComplete | content.js:157 | Every `Module {digits}` with a maximal digit run is matched there. |
| Matching.CoursePathModule | content.js:60 | A course path holds a module path right after its slug. |
| Text.NatToString | content.js:301 | `${n}`: non-empty decimal digits, no leading zero, and `parseInt` of it gives `n` back. |
| Text.NatToStringInjective | content.js:308-311 | Different numbers are written differently. |
| Text.ReplaceHyphens | popup.js:30 | `replace(/-/g, ' ')` keeps the length, turns every hyphen into a space and changes nothing else. |
| Text.CapitalizeWords | popup.js:86 | `replace(/\b\w/g, toUpperCase)` keeps the length and upper-cases exactly the word characters that follow no word character. |
| Text.DecimalValue | content.js:281 | `parseInt` of a digit run. Its contract is NatToString's read-back clause and the Parse lemmas, which fix the value of every digit group read. |
| Text.Join | content.js:193 | `join`. Its contract is Records.TimeText, which gives the joined badge text in each of the four cases. |
| Text.LexLeTotal | popup.js:99 | Any two names are comparable in the sort order. |
| Text.LexLeTransitive | popup.js:99 | The sort order is transitive. |
| Text.LexLeAntisymmetric | popup.js:99 | Two names that sort no later than each other are equal. |
| Duration.CaptureDuration | content.js:78-88 | `match(/\b\d+h\s*\d+m\|\b\d+\s*min\|\b\d+h/)?.[0] \|\| ''`: "" exactly when the text holds no duration; otherwise the text of the leftmost duration that starts a word, with the alternatives tried in order (so `1h 20m` is taken whole, never as `1h`). |
| Duration.DurationTextSound | content.js:82 | A match of the capture expression at a position is a duration there: a word starts there, a well-formed shape is written there and ends where the match ends, and a bare `Xh` is taken only where `Xh`·spaces·`Ym` is not written. |
| Duration.DurationTextComplete | content.js:82 | Every such duration is matched at its position, ending where its shape ends. |
| Duration.DurationTextFound | content.js:82 | When the capture expression finds a match, the matched text is the first duration of the text. |
| Duration.DurationTextNone | content.js:82-83 | When it finds none, the text holds no duration anywhere, and the slot gets "". |
| Duration.CaptureDurationLeftmost | content.js:82-83 | The first duration of a text is exactly what the tracker captures. |
| Duration.CaptureExample | content.js:80-83 | `1h 20m videos left` gives `1h 20m`. |
| Duration.ParseTimeToMinutes | content.js:273-297 | `parseTimeToMinutes` has no contract of its own. Its contract is the lemmas about it: ParseShape (every captured shape reads as its minutes), ParseEmpty, MinWordCountedOnce and FormatRoundTrip, plus the worked examples. |
| Duration.FormatMinutesToTime | content.js:299-312 | `formatMinutesToTime` has no contract of its own. Its contract is FormatRoundTrip (reading the text back gives n), FormatInjective and FormatExamples. |
| Duration.ParseHoursAndMinutes | content.js:273-297 | `"Xh Ym"`, with any white space between the parts, reads as 60·X + Y minutes. |
| Duration.ParseHoursOnly | content.js:277-282 | `"Xh"` reads as 60·X minutes. |
| Duration.ParseMinutesSuffix | content.js:278-286 | `"Nm"` reads as N minutes. |
| Duration.ParseMinutesWord | content.js:288-294 | `"N min"`, with any white space or none before `min`, reads as N minutes. |
| Duration.MinWordCountedOnce | content.js:278-294 | `"Nmin"` counts N once: the `min` fallback is skipped because `(\d+)m` already matched. |
| Duration.ParseEmpty | content.js:273-297 | `""` reads as 0 minutes. |
| Duration.ParseExamples | content.js:276 | The examples of the source comment: `"1h 20m"` is 80, `"2h"` is 120, `"30m"` is 30. |
| Duration.ParseMinWordExample | content.js:288 | `"45 min"` is 45. |
| Duration.ParseMinWordUnspacedExample | content.js:289 | `"45min"` is 45, not 90. |
| Duration.ParseShape | content.js:273-297 | Every well-formed duration shape reads as the minutes it stands for. |
| Duration.CapturedParses | content.js:82-87 | What the tracker captures from an indicator always reads back as the minutes of its shape. |
| Duration.FormatExamples | content.js:299-312 | 80 is written `1h 20m`, 45 is written `45m`, 120 is written `2h`. |
| Duration.FormatRoundTrip | content.js:273-312 | `parseTimeToMinutes(formatMinutesToTime(n)) == n` for every n ≥ 0. |
| Duration.FormatInjective | content.js:299-312 | Different totals are never written the same way. |
| Records.StorageKey | content.js:25 | The storage key is `coursera_` followed by the slug, from which the slug can be read back. |
| Records.StorageKeyInjective | popup.js:64 | Different courses get different storage keys. |
| Records.ModuleKey | content.js:117 | The record key is `module_` followed by the module number. |
| Records.ModuleKeyInjective | content.js:161 | Different modules get different record keys. |
| Records.TimeParts | content.js:185-191 | The time parts are `📹 {video}` when there is a video time, then `📖 {reading}` when there is a reading time, and nothing else. |
| Records.TimeText | content.js:193 | The badge text in each of the four cases. It is empty exactly when both times are empty. |
| Records.CollectTimeInfo | content.js:185-191 | Pushing the parts one by one builds exactly the time parts. |
| Records.LoadRecord | content.js:115 | `result[key] \|\| {}`: the stored record, or an empty one. |
| Records.WithModuleTime | content.js:117-120 | Writing an entry adds or replaces exactly that key with the new entry. Every other key keeps its entry. |
| Records.WithModuleTimeOverwrites | content.js:117-120 | Writing a key twice keeps only the second entry. No merge happens. |
| Records.Storage.constructor | content.js:114 | The storage starts with the given contents. |
| Records.Storage.Get | content.js:114 | `get` returns the record under the key, or nothing. |
| Records.Storage.Set | content.js:122 | `set` replaces the record under the key and keeps every other key. |
| Records.Storage.Remove | popup.js:184 | `remove` deletes exactly the listed keys and keeps every other key with its record. |
| Records.ObjectKeys | popup.js:178 | `Object.keys` lists every key of the map exactly once and nothing else. |
| Sidebar.RemoveFirst | content.js:168-173 | `querySelector(…)?.remove()` removes the first display of the class if there is one: the children become those before it followed by those after it. Every child of another class stays, in order. |
| Sidebar.ReplaceDisplay | content.js:167-199 | Remove the old display, append the new one. The first display of the class goes, every other child stays where it was with its text, and the new display ends up last. There is exactly one display unless there were several. |
| Sidebar.ReplaceDisplayExample | content.js:168-199 | With two displays, the first goes and the second stays, with its text, before the new one. |
| Sidebar.RemoveAppended | content.js:171-172 | Removing a display that was just appended undoes the append. |
| Sidebar.ReplaceDisplayTwice | content.js:235-242 | With at most one display, rendering twice gives the same children as rendering once with the second text. |
| Tracker.DetectCourse | content.js:20 | The course path read from the address has a non-empty slug and a digit-only module number. |
| Tracker.DetectCourseSound | content.js:20-24 | What is detected is the leftmost course path of the address. |
| Tracker.DetectCourseLeftmost | content.js:20-24 | The leftmost course path of the address is what is detected. |
| Tracker.DetectCourseNone | content.js:22 | Nothing is detected exactly when the address holds no course path. |
| Tracker.ModuleNumber | content.js:60 | The module number read from the address is a non-empty run of digits. |
| Tracker.ModuleNumberSound | content.js:60-67 | What is read is the number of the leftmost module path. |
| Tracker.ModuleNumberLeftmost | content.js:60-67 | The leftmost module path's number is what is read. |
| Tracker.ModuleNumberNone | content.js:62-65 | No module is read exactly when the address holds no module path. |
| Tracker.CoursePathHasModule | content.js:60 | Whenever the tracker detected a course, the re-read of the module also finds a module. |
| Tracker.ModulePathInCoursePath | content.js:60 | Any course path in the address makes the module re-read succeed. |
| Tracker.SlotOf | content.js:80-88 | Which slot an indicator text is for. Its contract is VideoTakesPrecedence. |
| Tracker.SlotTime | content.js:75-89 | The time a slot holds after the texts are read in order. Its contract is LastFragmentWins, NoFragmentEmpty, SlotTimeWellFormed and SlotTimeStep, and ExtractTimes' loop ends equal to it. |
| Tracker.LastFragmentWins | content.js:78-89 | A slot's time is the duration captured from the last indicator text for that slot, whatever came before it. This includes "" when that text holds no duration. |
| Tracker.NoFragmentEmpty | content.js:75-76 | A slot that no indicator text is for stays empty. |
| Tracker.VideoTakesPrecedence | content.js:80-84 | A text mentioning both `videos left` and `readings left` counts for the video slot only. |
| Tracker.SlotTimeWellFormed | content.js:81-87 | A captured time is "" or one of the three duration shapes. |
| Tracker.SlotTimeStep | content.js:78-89 | Reading one more indicator text decides its own slot's time and leaves the other slot's time alone. |
| Tracker.ExtractTimes | content.js:75-89 | The `forEach` loop ends with each slot holding the time set by the last text for that slot. |
| Tracker.SaveEntry | content.js:114-122 | After a save, the course record is the old one, or an empty one, with exactly `module_{n}` set to the new entry. Every other key and every other course is unchanged. |
| Tracker.AfterExtraction | content.js:96-122 | The storage after one extraction. Its contract is AfterExtractionTracked and ExtractionRepeats, and CourseraTimeTracker.ExtractAndSaveModuleTime ends in it. |
| Tracker.AfterExtractionTracked | content.js:96-101 | Extraction keeps storage to entries of the kind the tracker writes: every entry has a time, no name, and only well-formed durations. |
| Tracker.SaveEntryTracked | content.js:117-122 | Saving such an entry keeps that invariant. |
| Tracker.SaveEntryOverwrites | content.js:117-120 | Saving a module twice keeps only the second entry. |
| Tracker.ExtractionRepeats | content.js:96-122 | Extracting the same page twice at two times leaves the result of the second extraction, with the second time stamp. |
| Tracker.LinkBadge | content.js:157-193 | The badge a link's title earns. Its contract is SavedModuleShowsBadge. |
| Tracker.RenderedLink | content.js:157-199 | A link's children after rendering. Its contract is RenderLinkIdempotent and Sidebar.ReplaceDisplay's contract, and ModuleLink.ShowTime ends in it. |
| Tracker.ModuleLink.ShowTime | content.js:154-200 | One link after the loop body: it gets its module's badge exactly when its title names a module with a stored time. Otherwise it is untouched. |
| Tracker.UpdateModuleTimes | content.js:147-203 | Every sidebar link ends up rendered with its own module's badge. |
| Tracker.RenderLinkIdempotent | content.js:167-199 | Re-rendering a link changes nothing, and a link never holds more than one badge. |
| Tracker.TotalMinutes | content.js:217-231 | The order-free total of one category over a record. Its contract is TotalMinutesRemove, TotalMinutesPositive and TotalAfterSave, and AddUpTimes' loop reaches it. |
| Tracker.TotalText | content.js:254-266 | `Total: ` and the joined non-zero totals. Its contract is TotalPart and Records.TimeText. |
| Tracker.RenderedTotal | content.js:233-270 | The header's siblings after rendering the total. Its contract is Sidebar.ReplaceDisplay's, and UpdateCourseTotalTime ends in it. |
| Tracker.TotalMinutesRemove | content.js:220-231 | The total over a record does not depend on the order the entries are visited. |
| Tracker.TotalMinutesPositive | content.js:233 | A total is positive exactly when some entry contributes minutes to it. |
| Tracker.TotalAfterSave | content.js:117-122 | After a module is saved, the course total is the rest of the course plus that module's new minutes. |
| Tracker.TotalPart | content.js:255-264 | A total part is empty exactly for a zero total. Read back, it gives the total. |
| Tracker.AddUpTimes | content.js:216-231 | The loop over `Object.values` reaches the per-category totals over all entries, with empty fields skipped. |
| Tracker.VisitStep | content.js:220 | The next key of the enumeration is not yet visited, and visiting it takes exactly its entry out of the unvisited part. |
| Tracker.UpdateCourseTotalTime | content.js:205-271 | Under the course material header, the display becomes `Total: ` plus the non-zero totals when some total is positive. Under any other header, or without one, nothing changes. |
| Tracker.CourseraTimeTracker.constructor | content.js:4-9 | On a module address, the tracker takes the slug, module and storage key, and schedules extraction. Otherwise all three stay `''` and nothing is scheduled. |
| Tracker.CourseraTimeTracker.Init | content.js:11-16 | Extraction is scheduled exactly when a module was found. |
| Tracker.CourseraTimeTracker.ExtractCourseInfo | content.js:18-30 | On a course address, the three fields are set from the match. Otherwise they keep their values. |
| Tracker.CourseraTimeTracker.ExtractAndSaveModuleTime | content.js:57-110 | The storage afterwards is unchanged off a module page or when both times are empty. Otherwise the current module's entry holds the captured times and `now`. |
| Tracker.CourseraTimeTracker.SaveModuleTime | content.js:112-130 | The read-modify-write ends in the saved storage described above. |
| Tracker.CourseraTimeTracker.UpdateSidebar | content.js:132-145 | The badges and the total are rendered from the course's stored record, or an empty one. |
| Tracker.SavedModuleShowsBadge | content.js:157-193 | Once a module is saved, a render that reads the store after the write shows exactly that module's badge on the sidebar link titled `Module {n}`. |
| Popup.CourseSlug | popup.js:23 | The course slug read from the tab address is non-empty and has no `/`. |
| Popup.CourseSlugSound | popup.js:23 | What is read is the slug of the leftmost `coursera.org/learn/` path. |
| Popup.CourseSlugLeftmost | popup.js:23 | The slug of the leftmost such path is what is read. |
| Popup.CourseSlugNone | popup.js:41-43 | No slug is read exactly when the address holds no `coursera.org/learn/{slug}`. |
| Popup.TabCourse | popup.js:15-47 | The course `checkCurrentTab` takes from the tab. Its contract is CourseSlugSound, CourseSlugLeftmost and CourseSlugNone, and CheckCurrentTab ends with it. |
| Popup.TabStatus | popup.js:15-47 | The status `checkCurrentTab` shows. Its contract is TabStatusNamesCourse. |
| Popup.TabStatusNamesCourse | popup.js:15-47 | The status is active exactly when the tab shows a course. It then names the course, with hyphens as spaces, after `Active on ` when a module is open, else after `Coursera course detected: `. Otherwise it says the page is not a course or the tab is unreadable. |
| Popup.ObjectEntries | popup.js:92 | `Object.entries` lists every key of the record once, each with its own entry. |
| Popup.Timed | popup.js:93-95 | The filter keeps exactly the entries with a video or reading time, each as many times as it occurs in the input. |
| Popup.InsertByName | popup.js:96-100 | Inserting into a list sorted by name keeps it sorted and adds exactly the one entry. |
| Popup.SortByName | popup.js:96-100 | The sorted list is ordered by `moduleName`, or by the key when there is no name, and is a permutation of its input. |
| Popup.ListedEntries | popup.js:92-100 | Whatever order `Object.entries` gave, the listed modules are sorted and are exactly the stored entries with a time. The list is a permutation of the filtered entries, and no two listed entries share a key, so each module is listed once. |
| Popup.DisplayName | popup.js:97-98 | `moduleName \|\| key`. Its contract is SortByName, which orders by it, and ListedItemsShowBadges. |
| Popup.ListItems | popup.js:102-113 | The list element's children after display. Its contract is RenderList and ListedItemsShowBadges. |
| Popup.ModuleTimeText | popup.js:129-138 | The time line is the badge text when the entry has a time, else `No time data`. |
| Popup.ListedItemsShowBadges | popup.js:106-138 | Every listed item shows its module's stored badge text, the same text the content script puts in the sidebar, so `No time data` never shows. |
| Popup.CourseTitle | popup.js:84-86 | The course title has the length of the slug. Hyphens become spaces, and word characters that start a word are upper-cased. |
| Popup.CourseKeys | popup.js:178-180 | The keys kept are exactly the stored keys starting with `coursera_`. |
| Popup.WithoutCourseData | popup.js:177-185 | After clearing, exactly the keys starting with `coursera_` are gone. Every other key keeps its value. |
| Popup.ClearedHasNoCourseData | popup.js:188 | After clearing, no course has data left for the popup to show. |
| Popup.PopupManager.constructor | popup.js:4-13 | The popup's state after start-up. The current course and the status are the tab's. The empty state shows exactly when there is no course or no non-empty record for it; otherwise the course info shows, with the course title and the sorted list of the record's timed entries. While the course info is hidden, the title and list stay empty. |
| Popup.PopupManager.UpdateStatus | popup.js:49-55 | The status line changes and nothing else does. |
| Popup.PopupManager.CheckCurrentTab | popup.js:15-47 | The status becomes the tab's status. The current course becomes the tab's course, and stays as it was when the tab shows none. |
| Popup.PopupManager.LoadCourseData | popup.js:57-77 | Without a course, or with a missing or empty record, the empty state is shown. Otherwise the title and the sorted list of timed entries are shown. |
| Popup.PopupManager.DisplayCourseData | popup.js:79-116 | The course title and the list items are those of the record's timed entries, in name order, and the course info is shown. |
| Popup.PopupManager.RenderList | popup.js:102-113 | The list is `No module data found` for no entries, else one item per entry, in order. |
| Popup.PopupManager.CreateModuleItem | popup.js:118-144 | A module item holds the name and the entry's time line. |
| Popup.PopupManager.ClearAllData | popup.js:170-200 | Once confirmed, exactly the course records are removed, the empty state shows, and the status reports success. When declined, nothing changes. Either way the course info, title and list are left as they were, so after clearing an old list stays visible beside the empty state. |
| Popup.TrackerOnModulePage | content.js:18-30 | On `https://www.coursera.org/learn/{slug}/home/module/{n}`, the tracker reads that slug and that module. |
| Popup.PopupOnModulePage | popup.js:23-27 | On the same address, the popup reads the same slug. |
| Popup.ScriptsAgreeOnModulePage | popup.js:64 | On a module page, both scripts name the same course. The popup shows `Active on` it, and both use the storage key `coursera_{slug}`. |

## Left out

- Tracker.SavedModuleShowsBadge: the timer callbacks (content.js:34-37, 42-45) call `updateSidebar` right after `extractAndSaveModuleTime`, which starts the asynchronous `saveModuleTime` (content.js:98, 112-122) without awaiting it. The storage read of that render (content.js:134) can therefore run before the save's write (content.js:122) and show the record as it was before the save. The model runs save and render in sequence, so this lemma and the other render-after-save statements hold for a render that starts after the write completes.
- Timers, the `MutationObserver` debouncing (content.js:32-55), the single-page navigation observer (content.js:324-335) and the initial-load hook (content.js:316-322) are event-loop scheduling, not sequential logic. `waitForPageLoad` is modelled only as the `extractionScheduled` flag it sets.
- The browser APIs are replaced by inputs:
  - The asynchronous `chrome.storage.local` calls are the `Storage` class over an in-memory map.
  - `chrome.tabs.query` is the tab address as an optional string. None stands for a query that throws.
  - `confirm` is a boolean.
  - `Date.now()` is the `now` parameter.
  - The page's indicator texts are the `fragments` parameter.
- The DOM:
  - Only the rendered strings are modelled; element creation, CSS text, `innerHTML` and `console` are not.
  - A module link is flattened to one list of children. The source looks up the old badge in the whole link and appends the new one to the title's parent.
  - The total display's container is flattened the same way (`SectionHeader.siblings`). The source's `querySelector` on the header's parent searches all its descendants (content.js:235-238), and the new total is appended to that parent (content.js:269).
- Storage and tab failures are not modelled, because the in-memory `Storage` never fails and no modelled operation throws. The `catch` blocks of content.js:107-109, 127-129 and 142-144 only log. The one at popup.js:73-76 would also show the empty state. The one at popup.js:196-199 would also set the status to inactive with `Error clearing data`.
- `refreshData`, `setupEventListeners`, tab reload and `window.close` (popup.js:146-168) are out of scope. So is the delayed re-check after clearing (popup.js:193-195).
- What the popup page shows before scripts run is taken as: no empty state, no course info. The source leaves this to its HTML file, which is not part of this model.
- Storage holds only course records. Values of other keys are modelled with the same type; clearing keeps them untouched either way.
- Text.LexLe: `localeCompare` is modelled as the ordinal order on characters, without locale rules.
- Popup.SortByName: only sortedness and permutation are stated. Where two entries have equal names, their relative order is not stated.
- Records.ObjectKeys: the enumeration order is left open; JavaScript uses insertion order. Enumeration is a method that picks any order, so every property is proved for all orders.
- Popup.PopupManager.LoadCourseData: the shown list is stated for some enumeration order of the record, not a particular one.
- Popup.PopupManager.constructor: likewise, the list shown after start-up is stated for some enumeration order of the record.
- Duration.ParseTimeToMinutes: numbers are unbounded.
  - `parseInt` loses precision above 2^53.
  - `${n}` switches to exponent notation from 10^21.
  - The model has neither effect.
- Duration.ParseTimeToMinutes: its leftmost-match semantics are stated through lemmas about the texts the tracker captures and writes. There is no closed form for arbitrary text.
- Strings are sequences of code points. JavaScript counts UTF-16 units, so the emoji in the badges have length 2 there.
- Sidebar.ReplaceDisplay: a container with several badges keeps all but the first. Rendering is idempotent only from at most one badge, and ReplaceDisplayTwice is stated for that case only.
- Popup.ScriptsAgreeOnModulePage: the tracker's number is stated for the canonical module address only. The module re-read is stated only to succeed there, not to give the same number.
