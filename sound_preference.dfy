/** The `isMuted` state of the sound provider: loaded once from storage
    (unmuted when nothing usable is stored or storage throws), flipped by
    `toggleMute`, written back as a JSON boolean by an effect after the
    first render and after every change, and consulted by `playSound`.
    The audio engine itself is outside this model: `playSound` reports the
    cue it hands on. */
module SoundPreference {
  import opened Wrappers
  import opened Storage

  const StorageKey: string := "mines-predictor-sound-muted"

  /** The cues the application can ask for. */
  datatype Sound = GetSignal | NextRound | ChickenRun | ButtonClick | ModalOpen
                 | ModalClose | Success | Error | Copy | PredictionReveal

  /** `JSON.stringify` of a boolean. */
  function JsonBool(b: bool): string
  {
    if b then "true" else "false"
  }

  /** The characters JSON allows around a value. */
  predicate IsJsonSpace(c: char)
  {
    c == ' ' || c == '\t' || c == '\n' || c == '\r'
  }

  predicate AllJsonSpace(s: string)
  {
    forall i :: 0 <= i < |s| ==> IsJsonSpace(s[i])
  }

  /** The text without its leading JSON whitespace. */
  function TrimStart(s: string): (t: string)
    ensures |t| <= |s|
    ensures t == [] || !IsJsonSpace(t[0])
    decreases |s|
  {
    if s != [] && IsJsonSpace(s[0]) then TrimStart(s[1..]) else s
  }

  /** The text without its trailing JSON whitespace. */
  function TrimEnd(s: string): (t: string)
    ensures |t| <= |s|
    ensures t == [] || !IsJsonSpace(t[|t| - 1])
    decreases |s|
  {
    if s != [] && IsJsonSpace(s[|s| - 1]) then TrimEnd(s[..|s| - 1]) else s
  }

  /** `TrimStart` drops a prefix of whitespace. */
  lemma {:induction false} TrimStartSuffix(s: string)
    ensures TrimStart(s) == s[|s| - |TrimStart(s)|..]
    ensures AllJsonSpace(s[..|s| - |TrimStart(s)|])
    decreases |s|
  {
    if s != [] && IsJsonSpace(s[0]) {
      var t := TrimStart(s[1..]);
      TrimStartSuffix(s[1..]);
      assert s[..|s| - |t|] == [s[0]] + s[1..][..|s| - 1 - |t|];
    }
  }

  /** `TrimEnd` drops a suffix of whitespace. */
  lemma {:induction false} TrimEndPrefix(s: string)
    ensures TrimEnd(s) == s[..|TrimEnd(s)|]
    ensures AllJsonSpace(s[|TrimEnd(s)|..])
    decreases |s|
  {
    if s != [] && IsJsonSpace(s[|s| - 1]) {
      var t := TrimEnd(s[..|s| - 1]);
      TrimEndPrefix(s[..|s| - 1]);
      assert s[|t|..] == s[..|s| - 1][|t|..] + [s[|s| - 1]];
    }
  }

  /** The text with JSON whitespace removed from both ends: what is left
      neither starts nor ends with whitespace (`TrimRemovesSpaceOnly` says
      what was removed). */
  function Trim(s: string): (t: string)
    ensures t == [] || (!IsJsonSpace(t[0]) && !IsJsonSpace(t[|t| - 1]))
  {
    var u := TrimStart(s);
    TrimEndPrefix(u);
    TrimEnd(u)
  }

  /** Trimming removes JSON whitespace and nothing else: the text is the
      trimmed text with whitespace before and after it. */
  lemma TrimRemovesSpaceOnly(s: string)
    ensures exists a, b :: s == a + Trim(s) + b && AllJsonSpace(a) && AllJsonSpace(b)
  {
    var u := TrimStart(s);
    var t := TrimEnd(u);
    TrimStartSuffix(s);
    TrimEndPrefix(u);
    assert Trim(s) == t;
    var a, b := s[..|s| - |u|], u[|t|..];
    assert u == t + b;
    assert s == a + u;
    assert s == a + t + b && AllJsonSpace(a) && AllJsonSpace(b);
  }

  /** `JSON.parse`, for the boolean literals with any surrounding JSON
      whitespace; any other text is taken as a parse failure. */
  function ParseJsonBool(s: string): Option<bool>
  {
    var t := Trim(s);
    if t == "true" then Some(true) else if t == "false" then Some(false) else None
  }

  /** Parsing inverts printing: a text parses to `b` exactly when, apart
      from surrounding whitespace, it is `JSON.stringify(b)`. */
  lemma JsonBoolRoundTrip(s: string, b: bool)
    ensures ParseJsonBool(s) == Some(b) <==> Trim(s) == JsonBool(b)
  {
  }

  /** `storedMute ? JSON.parse(storedMute) : false`, an exception while
      reading or parsing giving `false`. */
  function InitialMuted(stored: Read): (muted: bool)
    ensures muted <==> stored.Got? && stored.stored.Some? && Trim(stored.stored.value) == JsonBool(true)
  {
    match stored
    case Got(Some(text)) =>
      if text == "" then false
      else (match ParseJsonBool(text) case Some(b) => b case None => false)
    case _ => false
  }

  /** Whitespace around a stored literal is accepted, as `JSON.parse`
      accepts it. */
  lemma PaddedLiteralLoads()
    ensures InitialMuted(Got(Some(" true\n"))) == true
    ensures InitialMuted(Got(Some("false\n"))) == false
  {
    assert TrimStart("true\n") == "true\n";
    assert TrimStart(" true\n") == "true\n" by {
      assert " true\n"[1..] == "true\n";
    }
    assert TrimEnd("true") == "true";
    assert TrimEnd("true\n") == "true" by {
      assert "true\n"[..4] == "true";
    }
    assert TrimStart("false\n") == "false\n";
    assert TrimEnd("false") == "false";
    assert TrimEnd("false\n") == "false" by {
      assert "false\n"[..5] == "false";
    }
  }

  /** What is loaded is what was saved. */
  lemma SavedMuteLoads(b: bool)
    ensures InitialMuted(Got(Some(JsonBool(b)))) == b
  {
  }

  class SoundCell {
    var isMuted: bool
    const store: Store

    /** Storage holds the current flag whenever writing works. */
    ghost predicate Synced()
      reads this, store
    {
      store.writable ==> StorageKey in store.items && store.items[StorageKey] == JsonBool(isMuted)
    }

    /** `useState` with the loading initialiser, then the effect's first
        run, which writes the loaded flag back. */
    constructor (store: Store)
      modifies store
      ensures this.store == store
      ensures isMuted == InitialMuted(old(store.Get(StorageKey)))
      ensures store.items == old(store.AfterSet(StorageKey, JsonBool(InitialMuted(store.Get(StorageKey)))))
      ensures Synced()
    {
      isMuted := InitialMuted(store.Get(StorageKey));
      this.store := store;
      new;
      Persist();
    }

    /** The effect: `setItem` of `JSON.stringify(isMuted)`, any exception
        swallowed. */
    method Persist()
      modifies store
      ensures store.items == old(store.AfterSet(StorageKey, JsonBool(isMuted)))
      ensures Synced()
    {
      var _ := store.SetItem(StorageKey, JsonBool(isMuted));
    }

    /** `toggleMute`: the flag always changes, so the effect always runs. */
    method ToggleMute()
      modifies this, store
      ensures isMuted == !old(isMuted)
      ensures store.items == old(store.AfterSet(StorageKey, JsonBool(!isMuted)))
      ensures Synced()
    {
      isMuted := !isMuted;
      Persist();
    }

    /** `playSound`: nothing while muted, otherwise the cue goes to the
        audio engine; the result is the cue handed on, if any. */
    method PlaySound(sound: Sound) returns (played: Option<Sound>)
      ensures played.Some? <==> !isMuted
      ensures played.Some? ==> played.value == sound
    {
      if isMuted {
        return None;
      }
      played := Some(sound);
    }
  }

  /** Toggling twice restores the flag; storage that held it holds it
      again, unchanged. */
  method ToggleTwiceRestores(cell: SoundCell)
    requires cell.Synced()
    modifies cell, cell.store
    ensures cell.isMuted == old(cell.isMuted)
    ensures cell.Synced()
    ensures cell.store.items == old(cell.store.items)
  {
    cell.ToggleMute();
    cell.ToggleMute();
  }

  /** A session that mutes (or unmutes), followed by a fresh session on
      the same storage: the new session starts with the chosen flag
      whenever storage works. */
  method MuteSurvivesReload(store: Store) returns (before: bool, reloaded: bool)
    requires store.readable && store.writable
    modifies store
    ensures reloaded == !before
  {
    var session := new SoundCell(store);
    before := session.isMuted;
    session.ToggleMute();
    var next := new SoundCell(store);
    reloaded := next.isMuted;
    SavedMuteLoads(!before);
  }
}
