/** The settings store: an in-memory record seeded with the defaults and
    persisted as one entry of the browser's key/value storage. */
module SettingsStore {

  import opened Common

  /** A setting's value: the defaults use strings, booleans and integers. */
  datatype Value = Text(s: string) | Flag(b: bool) | Number(n: int)

  type Settings = map<string, Value>

  /** What the storage entry holds: a record that parses, or text that does
      not (the empty string included). */
  datatype Stored = Record(fields: Settings) | Unparseable(text: string)

  const StorageKey := "markdown-notes-settings"

  /** The defaults; the notes root is the server's working directory when
      there is a process, a placeholder in the browser. */
  function DefaultSettings(processCwd: Option<string>): (d: Settings)
    ensures "rootPath" in d && d["rootPath"].Text?
    ensures processCwd.Some? ==> d["rootPath"] == Text(processCwd.value)
    ensures "theme" in d && d["theme"] == Text("system")
  {
    map[
      "rootPath" := Text(if processCwd.Some? then processCwd.value else "/path/to/notes"),
      "theme" := Text("system"),
      "askBeforeClosingUnsavedTab" := Flag(true),
      "askBeforeDeleteNonEmptyFolder" := Flag(true),
      "editorFontSize" := Number(14),
      "editorFontFamily" := Text("Fira Code, Consolas, Monaco, monospace"),
      "sidebarWidth" := Number(250),
      "autoSave" := Flag(false),
      "autoSaveDelay" := Number(2000),
      "dateTimeFormat" := Text("YYYY-MM-DD HH:mm:ss"),
      "showFooter" := Flag(true),
      "fileTreeSpacing" := Text("normal")
    ]
  }

  /** `{...defaults, ...stored}`: every default key is present, stored
      values win, and keys only the stored record has are kept. */
  function Merge(defaults: Settings, stored: Settings): (r: Settings)
    ensures r.Keys == defaults.Keys + stored.Keys
    ensures forall k :: k in stored ==> r[k] == stored[k]
    ensures forall k :: k in defaults && k !in stored ==> r[k] == defaults[k]
  {
    defaults + stored
  }

  /** Merging is idempotent: loading what a load produced changes nothing. */
  lemma MergeIdempotent(defaults: Settings, stored: Settings)
    ensures Merge(defaults, Merge(defaults, stored)) == Merge(defaults, stored)
  {
    var m := Merge(defaults, stored);
    assert Merge(defaults, m).Keys == m.Keys;
  }

  /** A record that already has every default key is unchanged by the merge. */
  lemma MergeComplete(defaults: Settings, stored: Settings)
    requires defaults.Keys <= stored.Keys
    ensures Merge(defaults, stored) == stored
  {
    assert Merge(defaults, stored).Keys == stored.Keys;
  }

  class Store {
    const defaults: Settings
    /** Whether a browser `window` exists; without one nothing is persisted. */
    const hasWindow: bool
    var current: Settings
    var storage: map<string, Stored>

    constructor(processCwd: Option<string>, hasWindow: bool, storage: map<string, Stored>)
      ensures defaults == DefaultSettings(processCwd) && current == defaults
      ensures this.hasWindow == hasWindow && this.storage == storage
    {
      defaults := DefaultSettings(processCwd);
      current := DefaultSettings(processCwd);
      this.hasWindow := hasWindow;
      this.storage := storage;
    }

    /** Whether `load` finds a record it can use. */
    predicate HasRecord()
      reads this
    {
      hasWindow && StorageKey in storage && storage[StorageKey].Record?
    }

    /** `load`: the merged record when one is stored (and the store is set to
      it); otherwise the defaults, with the store left as it was. */
    method Load() returns (r: Settings)
      modifies this
      ensures old(HasRecord()) ==> r == Merge(defaults, old(storage)[StorageKey].fields) && current == r
      ensures !old(HasRecord()) ==> r == defaults && current == old(current)
      ensures storage == old(storage)
    {
      if hasWindow && StorageKey in storage {
        match storage[StorageKey]
        case Record(fields) =>
          var merged := Merge(defaults, fields);
          current := merged;
          return merged;
        case Unparseable(_) =>
      }
      return defaults;
    }

    /** `save(s)`: persists exactly `s` and sets the store to it. */
    method Save(s: Settings)
      modifies this
      ensures current == s
      ensures storage == if hasWindow then old(storage)[StorageKey := Record(s)] else old(storage)
    {
      if hasWindow {
        storage := storage[StorageKey := Record(s)];
      }
      current := s;
    }

    /** `updateSetting(k, v)`: only key `k` changes, and what is persisted is
      the new record. */
    method UpdateSetting(k: string, v: Value)
      modifies this
      ensures current == old(current)[k := v]
      ensures forall j :: j in old(current) && j != k ==> j in current && current[j] == old(current)[j]
      ensures storage == if hasWindow then old(storage)[StorageKey := Record(current)] else old(storage)
    {
      var next := current[k := v];
      if hasWindow {
        storage := storage[StorageKey := Record(next)];
      }
      current := next;
    }

    /** `reset`: forgets the persisted record and returns to the defaults. */
    method Reset()
      modifies this
      ensures current == defaults
      ensures storage == if hasWindow then old(storage) - {StorageKey} else old(storage)
      ensures hasWindow ==> StorageKey !in storage
    {
      if hasWindow {
        storage := storage - {StorageKey};
      }
      current := defaults;
    }
  }

  /** Saving and loading again gives the saved record merged over the
      defaults; without a window the load falls back to the defaults. */
  method SaveThenLoad(store: Store, s: Settings) returns (r: Settings)
    modifies store
    ensures store.hasWindow ==> r == Merge(store.defaults, s) && store.current == r
    ensures !store.hasWindow ==> r == store.defaults && store.current == s
  {
    store.Save(s);
    r := store.Load();
  }

  /** After a reset a load yields the defaults and leaves them in place. */
  method ResetThenLoad(store: Store) returns (r: Settings)
    modifies store
    ensures r == store.defaults && store.current == store.defaults
  {
    store.Reset();
    r := store.Load();
  }
}
