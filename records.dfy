/**
 * The extension's stored data: one course record per course under the key
 * `coursera_{slug}` of the extension's local storage, each mapping
 * `module_{n}` to the latest times captured for that module.
 */
module Records {
  import opened Wrappers
  import opened Matching
  import opened Text

  /**
   * One module's entry: `{videoTime, readingTime, lastUpdated}` as the content
   * script writes it.  `moduleName` is the optional name the popup prefers over
   * the key (`moduleName || key`); the content script never writes it, and ""
   * stands for its absence.
   */
  datatype ModuleTime = ModuleTime(videoTime: string, readingTime: string, moduleName: string, lastUpdated: int)

  /** A course record: module key to entry. */
  type CourseRecord = map<string, ModuleTime>

  const CoursePrefix := "coursera_"
  const ModulePrefix := "module_"
  const VideoIcon := "\U{1F4F9} "
  const ReadingIcon := "\U{1F4D6} "
  const Separator := " \U{2022} "

  /** The storage key of a course: the prefix followed by the slug, from which the slug can be read back. */
  function StorageKey(slug: string): (k: string)
    ensures StartsWith(k, CoursePrefix) && k[|CoursePrefix|..] == slug
  {
    CoursePrefix + slug
  }

  /** The record key of a module: the prefix followed by the module number. */
  function ModuleKey(number: string): (k: string)
    ensures StartsWith(k, ModulePrefix) && k[|ModulePrefix|..] == number
  {
    ModulePrefix + number
  }

  /** Different courses are stored under different keys. */
  lemma StorageKeyInjective(a: string, b: string)
    requires StorageKey(a) == StorageKey(b)
    ensures a == b
  {
    assert a == StorageKey(a)[|CoursePrefix|..];
  }

  /** Different modules have different record keys. */
  lemma ModuleKeyInjective(a: string, b: string)
    requires ModuleKey(a) == ModuleKey(b)
    ensures a == b
  {
    assert a == ModuleKey(a)[|ModulePrefix|..];
  }

  /** `moduleData.videoTime || moduleData.readingTime`: the entry holds some time. */
  predicate HasTime(mt: ModuleTime)
  {
    mt.videoTime != "" || mt.readingTime != ""
  }

  /**
   * The `timeInfo` array: `📹 {video}` when there is a video time, then
   * `📖 {reading}` when there is a reading time.
   */
  function TimeParts(video: string, reading: string): (parts: seq<string>)
    ensures |parts| == (if video != "" then 1 else 0) + (if reading != "" then 1 else 0)
    ensures video != "" ==> parts[0] == VideoIcon + video
    ensures reading != "" ==> parts[|parts| - 1] == ReadingIcon + reading
  {
    (if video != "" then [VideoIcon + video] else []) + (if reading != "" then [ReadingIcon + reading] else [])
  }

  /** `timeInfo.join(' • ')`. */
  function TimeText(video: string, reading: string): (t: string)
    ensures video != "" && reading != "" ==> t == VideoIcon + video + Separator + ReadingIcon + reading
    ensures video != "" && reading == "" ==> t == VideoIcon + video
    ensures video == "" && reading != "" ==> t == ReadingIcon + reading
    ensures t == "" <==> video == "" && reading == ""
  {
    var parts := TimeParts(video, reading);
    if video != "" && reading != "" then
      assert parts[1..] == [ReadingIcon + reading];
      assert Join(parts[1..], Separator) == ReadingIcon + reading;
      Join(parts, Separator)
    else Join(parts, Separator)
  }

  /** The badge text of an entry: its labelled times joined by the separator. */
  function BadgeText(mt: ModuleTime): string
  {
    TimeText(mt.videoTime, mt.readingTime)
  }

  /**
   * Builds the `timeInfo` array the way both scripts do, by pushing the video
   * part and then the reading part.
   */
  method CollectTimeInfo(video: string, reading: string) returns (timeInfo: seq<string>)
    ensures timeInfo == TimeParts(video, reading)
  {
    timeInfo := [];
    if video != "" {
      timeInfo := timeInfo + [VideoIcon + video];
    }
    if reading != "" {
      timeInfo := timeInfo + [ReadingIcon + reading];
    }
  }

  /** `result[key] || {}`: the stored record, or an empty one. */
  function LoadRecord(data: map<string, CourseRecord>, key: string): (rec: CourseRecord)
    ensures key !in data ==> rec == map[]
    ensures key in data ==> rec == data[key]
  {
    if key in data then data[key] else map[]
  }

  /**
   * `courseData[key] = entry` on a record: the key is added or replaced
   * (never merged) and every other key keeps its entry.
   */
  function WithModuleTime(rec: CourseRecord, key: string, entry: ModuleTime): (r: CourseRecord)
    ensures r.Keys == rec.Keys + {key}
    ensures r[key] == entry
    ensures forall k | k in rec && k != key :: r[k] == rec[k]
  {
    rec[key := entry]
  }

  /** Writing a module twice keeps only the second write. */
  lemma WithModuleTimeOverwrites(rec: CourseRecord, key: string, first: ModuleTime, second: ModuleTime)
    ensures WithModuleTime(WithModuleTime(rec, key, first), key, second) == WithModuleTime(rec, key, second)
  {
    var a := WithModuleTime(WithModuleTime(rec, key, first), key, second);
    var b := WithModuleTime(rec, key, second);
    assert forall k | k in a :: a[k] == b[k];
  }

  /** `chrome.storage.local`, as an in-memory map from storage key to course record. */
  class Storage {
    var data: map<string, CourseRecord>

    constructor(initial: map<string, CourseRecord>)
      ensures data == initial
    {
      data := initial;
    }

    /** `get(key)`: the record under `key`, if any. */
    method Get(key: string) returns (r: Option<CourseRecord>)
      ensures r == if key in data then Some(data[key]) else None
    {
      r := if key in data then Some(data[key]) else None;
    }

    /** `set({[key]: rec})`. */
    method Set(key: string, rec: CourseRecord)
      modifies this
      ensures data == old(data)[key := rec]
    {
      data := data[key := rec];
    }

    /** `remove(keys)`: every listed key goes, every other key keeps its record. */
    method Remove(keys: seq<string>)
      modifies this
      ensures data == map k | k in old(data) && k !in keys :: old(data)[k]
    {
      var i := 0;
      while i < |keys|
        invariant 0 <= i <= |keys|
        invariant data == map k | k in old(data) && k !in keys[..i] :: old(data)[k]
      {
        data := data - {keys[i]};
        i := i + 1;
        assert keys[..i] == keys[..i - 1] + [keys[i - 1]];
      }
      assert keys[..i] == keys;
    }
  }

  /** Whether a sequence lists no element twice. */
  predicate Distinct<T(==)>(s: seq<T>)
  {
    forall i, j | 0 <= i < j < |s| :: s[i] != s[j]
  }

  /**
   * `Object.keys(m)`: every key once, in an order the model leaves open (the
   * method picks any enumeration).
   */
  method ObjectKeys<V>(m: map<string, V>) returns (keys: seq<string>)
    ensures Distinct(keys)
    ensures forall k :: k in m <==> k in keys
    ensures |keys| == |m|
  {
    keys := [];
    var rest := m.Keys;
    while rest != {}
      invariant rest !! (set k | k in keys)
      invariant rest + (set k | k in keys) == m.Keys
      invariant Distinct(keys)
      invariant |keys| + |rest| == |m|
      decreases |rest|
    {
      var k :| k in rest;
      keys := keys + [k];
      rest := rest - {k};
    }
  }
}
