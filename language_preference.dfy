/** The `language` state of the language provider: loaded once from
    storage (English when nothing usable is stored or storage throws), and
    written back by an effect after the first render and after every
    change. Write failures are swallowed. */
module LanguagePreference {
  import opened Wrappers
  import opened Storage
  import opened Translation

  const StorageKey: string := "mines-predictor-lang"

  /** `storedLang || 'en'`, with an exception while reading giving `'en'`
      too: the stored code when it is a non-empty string, else English. */
  function InitialLanguage(stored: Read): (language: string)
    ensures language != ""
    ensures language != DefaultLanguage ==> stored == Got(Some(language))
  {
    match stored
    case Got(Some(code)) => if code != "" then code else DefaultLanguage
    case _ => DefaultLanguage
  }

  /** What is loaded is what was saved: any non-empty code written to
      storage is the language of the next session. */
  lemma SavedLanguageLoads(code: string)
    requires code != ""
    ensures InitialLanguage(Got(Some(code))) == code
  {
  }

  /** Unusable storage gives English. */
  lemma UnavailableStorageGivesEnglish(stored: Read)
    requires stored == ReadFailed || stored == Got(None) || stored == Got(Some(""))
    ensures InitialLanguage(stored) == DefaultLanguage
  {
  }

  class LanguageCell {
    var language: string
    const store: Store

    /** Storage holds the current language whenever writing works. */
    ghost predicate Synced()
      reads this, store
    {
      store.writable ==> StorageKey in store.items && store.items[StorageKey] == language
    }

    /** `useState` with the loading initialiser, then the effect's first
        run, which writes the loaded language back. */
    constructor (store: Store)
      modifies store
      ensures this.store == store
      ensures language == InitialLanguage(old(store.Get(StorageKey)))
      ensures store.items == old(store.AfterSet(StorageKey, InitialLanguage(store.Get(StorageKey))))
      ensures Synced()
    {
      language := InitialLanguage(store.Get(StorageKey));
      this.store := store;
      new;
      Persist();
    }

    /** The effect: `setItem`, any exception swallowed. */
    method Persist()
      modifies store
      ensures store.items == old(store.AfterSet(StorageKey, language))
      ensures Synced()
    {
      var _ := store.SetItem(StorageKey, language);
    }

    /** `setLanguage(code)`. React skips the re-render and the effect when
        the value is unchanged, so only a real change is written. */
    method SetLanguage(code: string)
      requires Synced()
      modifies this, store
      ensures language == code
      ensures store.items == if code == old(language) then old(store.items)
                             else old(store.AfterSet(StorageKey, code))
      ensures Synced()
    {
      if code != language {
        language := code;
        Persist();
      }
    }
  }

  /** A session that picks a language, followed by a fresh session on the
      same storage: the new session starts in the chosen language whenever
      storage works. */
  method ChosenLanguageSurvivesReload(store: Store, code: string) returns (reloaded: string)
    requires store.readable && store.writable && code != ""
    modifies store
    ensures reloaded == code
  {
    var session := new LanguageCell(store);
    session.SetLanguage(code);
    var next := new LanguageCell(store);
    reloaded := next.language;
  }
}
