/** The translation function `t` of the language provider: walks the nested
    translation table along a dotted key, picks the entry for the current
    language (falling back to English), fills in `{name}` placeholders and,
    whenever anything is missing or goes wrong, answers with the key itself.
    The table is a parameter: its content lives outside this model. */
module Translation {
  import opened Wrappers
  import opened Text

  /** A node of the translation table: a group of named sub-tables, or a
      leaf mapping language codes to the translated text. */
  datatype Node = Branch(children: map<string, Node>) | Leaf(entries: map<string, string>)

  /** A replacement value, as `String(value)` renders it. Numbers are whole. */
  datatype ReplacementValue = Str(s: string) | Num(n: int)

  /** The replacements object, in the order `Object.keys` lists it. */
  type Replacements = seq<(string, ReplacementValue)>

  /** What placeholder substitution ends in: the text, or an exception. */
  datatype Outcome = Done(text: string) | Threw

  /** The fallback language of `t`, and the one loaded when storage holds
      none. */
  const DefaultLanguage: string := "en"

  // ---------------------------------------------------------------------------
  // Walking the table
  // ---------------------------------------------------------------------------

  /** `node[segment]`: only a branch has children; indexing into a leaf gives
      a string (or undefined), from which no language entry can be read, so
      it counts as a miss. */
  function Child(node: Node, segment: string): Option<Node>
  {
    match node
    case Branch(children) => if segment in children then Some(children[segment]) else None
    case Leaf(_) => None
  }

  /** The node a path of segments reaches, or `None` once a segment is
      missing. */
  function Lookup(node: Node, path: seq<string>): Option<Node>
    decreases |path|
  {
    if path == [] then Some(node)
    else
      match Child(node, path[0])
      case None => None
      case Some(child) => Lookup(child, path[1..])
  }

  /** `result?.[language] || result?.['en']`: the current language's entry
      when it is a non-empty string, otherwise the English entry (which may
      be empty). A branch holds no entries. */
  function Pick(node: Node, language: string): Option<string>
  {
    match node
    case Branch(_) => None
    case Leaf(entries) =>
      if language in entries && entries[language] != "" then Some(entries[language])
      else if DefaultLanguage in entries then Some(entries[DefaultLanguage])
      else None
  }

  // ---------------------------------------------------------------------------
  // Placeholders
  // ---------------------------------------------------------------------------

  /** `String(value)`. */
  function ToText(v: ReplacementValue): string
  {
    match v
    case Str(s) => s
    case Num(n) => if n < 0 then "-" + Decimal(-n) else Decimal(n)
  }

  function Placeholder(name: string): string
  {
    "{" + name + "}"
  }

  /** A name that turns `{name}` into a regular-expression quantifier with
      nothing before it (`{3}`, `{3,}`, `{3,5}`): `new RegExp` throws
      "nothing to repeat" for it. */
  predicate IsBracedQuantifier(name: string)
  {
    |name| > 0 && IsDigit(name[0]) &&
    (AllDigits(name) ||
     exists i :: 0 < i < |name| && name[i] == ',' && AllDigits(name[..i]) && AllDigits(name[i + 1..]))
  }

  /** The `forEach` over the replacement names: each name in turn replaces
      every `{name}` in the text so far by its value; a name the regular
      expression cannot be built from throws, abandoning the rest. */
  function Substitute(s: string, replacements: Replacements): Outcome
    decreases |replacements|
  {
    if replacements == [] then Done(s)
    else
      var (name, value) := replacements[0];
      if IsBracedQuantifier(name) then Threw
      else Substitute(ReplaceAll(s, Placeholder(name), ToText(value)), replacements[1..])
  }

  // ---------------------------------------------------------------------------
  // The translation function
  // ---------------------------------------------------------------------------

  /** What `t(key, replacements)` returns for the given table and current
      language. */
  function Resolve(table: Node, language: string, key: string, replacements: Option<Replacements>): string
  {
    match Lookup(table, Split(key, '.'))
    case None => key
    case Some(node) =>
      match Pick(node, language)
      case None => key
      case Some(s) =>
        if s != "" && replacements.Some? then
          match Substitute(s, replacements.value)
          case Threw => key
          case Done(r) => r
        else s
  }

  /** `t`, step by step as the provider runs it: the walk stops at the
      first missing segment, and an exception while substituting makes it
      answer with the key. */
  method Translate(table: Node, language: string, key: string, replacements: Option<Replacements>)
    returns (r: string)
    ensures r == Resolve(table, language, key, replacements)
  {
    var keys := Split(key, '.');
    var result := Some(table);
    var i := 0;
    while i < |keys|
      invariant 0 <= i <= |keys|
      invariant Lookup(table, keys) == if result.Some? then Lookup(result.value, keys[i..]) else None
    {
      if result == None {
        break;
      }
      assert keys[i..][1..] == keys[i + 1..];
      result := Child(result.value, keys[i]);
      i := i + 1;
    }
    if result == None {
      return key;
    }
    var picked := Pick(result.value, language);
    if picked == None {
      return key;
    }
    var translated := picked.value;
    if translated != "" && replacements.Some? {
      var reps := replacements.value;
      for j := 0 to |reps|
        invariant Substitute(picked.value, reps) == Substitute(translated, reps[j..])
      {
        var (name, value) := reps[j];
        if IsBracedQuantifier(name) {
          return key;
        }
        translated := ReplaceAll(translated, Placeholder(name), ToText(value));
      }
    }
    return translated;
  }

  // ---------------------------------------------------------------------------
  // Properties
  // ---------------------------------------------------------------------------

  /** Any path reaching a node that holds no usable entry (a missing
      segment, a branch, or a leaf with neither the language nor English)
      yields the key unchanged. */
  lemma MissingGivesKey(table: Node, language: string, key: string, replacements: Option<Replacements>)
    requires var found := Lookup(table, Split(key, '.'));
             found == None || Pick(found.value, language) == None
    ensures Resolve(table, language, key, replacements) == key
  {
  }

  /** Walking a path whose first segments reach a leaf fails. */
  lemma {:induction false} PastLeafMisses(node: Node, path: seq<string>, rest: seq<string>)
    requires Lookup(node, path).Some? && Lookup(node, path).value.Leaf?
    requires rest != []
    ensures Lookup(node, path + rest) == None
    decreases |path|
  {
    if path != [] {
      var child := Child(node, path[0]).value;
      assert (path + rest)[1..] == path[1..] + rest;
      PastLeafMisses(child, path[1..], rest);
    }
  }

  /** A path present in the table, written as a dotted key, reaches its
      leaf: the segments are exactly those of the key. */
  lemma DottedKeyReaches(table: Node, path: seq<string>)
    requires |path| >= 1
    requires forall i :: 0 <= i < |path| ==> '.' !in path[i]
    ensures Lookup(table, Split(Join(path, "."), '.')) == Lookup(table, path)
  {
    SplitJoin(path, '.');
  }

  /** A present key with a non-empty entry for the current language gives
      exactly that entry when there are no replacements. */
  lemma CurrentLanguageEntry(table: Node, path: seq<string>, language: string, entries: map<string, string>)
    requires |path| >= 1
    requires forall i :: 0 <= i < |path| ==> '.' !in path[i]
    requires Lookup(table, path) == Some(Leaf(entries))
    requires language in entries && entries[language] != ""
    ensures Resolve(table, language, Join(path, "."), None) == entries[language]
  {
    DottedKeyReaches(table, path);
  }

  /** A present key whose current-language entry is missing or empty gives
      the English entry. */
  lemma EnglishFallback(table: Node, path: seq<string>, language: string, entries: map<string, string>,
                        replacements: Option<Replacements>)
    requires |path| >= 1
    requires forall i :: 0 <= i < |path| ==> '.' !in path[i]
    requires Lookup(table, path) == Some(Leaf(entries))
    requires language !in entries || entries[language] == ""
    requires DefaultLanguage in entries
    requires replacements == None || entries[DefaultLanguage] == ""
    ensures Resolve(table, language, Join(path, "."), replacements) == entries[DefaultLanguage]
  {
    DottedKeyReaches(table, path);
  }

  /** A present key whose leaf has neither a usable current-language entry
      nor an English one gives the key. */
  lemma NoEntryGivesKey(table: Node, path: seq<string>, language: string, entries: map<string, string>,
                        replacements: Option<Replacements>)
    requires |path| >= 1
    requires forall i :: 0 <= i < |path| ==> '.' !in path[i]
    requires Lookup(table, path) == Some(Leaf(entries))
    requires language !in entries || entries[language] == ""
    requires DefaultLanguage !in entries
    ensures Resolve(table, language, Join(path, "."), replacements) == Join(path, ".")
  {
    DottedKeyReaches(table, path);
  }

  /** The empty key is one empty segment; absent from the table, it comes
      back as the empty string. */
  lemma EmptyKey(children: map<string, Node>, language: string, replacements: Option<Replacements>)
    requires "" !in children
    ensures Split("", '.') == [""]
    ensures Resolve(Branch(children), language, "", replacements) == ""
  {
    assert Split("", '.') == [""];
  }

  /** Substitution throws exactly when some replacement name is shaped like
      a braced quantifier, wherever it sits in the order. */
  lemma {:induction false} SubstituteThrowsIff(s: string, replacements: Replacements)
    ensures Substitute(s, replacements) == Threw
        <==> exists j :: 0 <= j < |replacements| && IsBracedQuantifier(replacements[j].0)
    decreases |replacements|
  {
    if replacements != [] {
      var (name, value) := replacements[0];
      if !IsBracedQuantifier(name) {
        var rest := replacements[1..];
        SubstituteThrowsIff(ReplaceAll(s, Placeholder(name), ToText(value)), rest);
        if exists j :: 0 <= j < |replacements| && IsBracedQuantifier(replacements[j].0) {
          var j :| 0 <= j < |replacements| && IsBracedQuantifier(replacements[j].0);
          assert rest[j - 1] == replacements[j];
        }
        if exists j :: 0 <= j < |rest| && IsBracedQuantifier(rest[j].0) {
          var j :| 0 <= j < |rest| && IsBracedQuantifier(rest[j].0);
          assert replacements[j + 1] == rest[j];
        }
      }
    }
  }

  /** A throwing replacement name makes `t` answer with the key once it
      has found a non-empty entry to substitute into. */
  lemma ThrowGivesKey(table: Node, language: string, key: string, replacements: Replacements, j: nat)
    requires var found := Lookup(table, Split(key, '.'));
             found.Some? && Pick(found.value, language).Some? && Pick(found.value, language).value != ""
    requires j < |replacements| && IsBracedQuantifier(replacements[j].0)
    ensures Resolve(table, language, key, Some(replacements)) == key
  {
    SubstituteThrowsIff(Pick(Lookup(table, Split(key, '.')).value, language).value, replacements);
  }

  /** Replacement names whose placeholders do not occur in the text leave
      it unchanged: placeholders without a replacement stay verbatim. */
  lemma {:induction false} UnusedReplacementsKeepText(s: string, replacements: Replacements)
    requires forall j :: 0 <= j < |replacements| ==>
               !IsBracedQuantifier(replacements[j].0) && !Occurs(s, Placeholder(replacements[j].0))
    ensures Substitute(s, replacements) == Done(s)
    decreases |replacements|
  {
    if replacements != [] {
      var (name, value) := replacements[0];
      ReplaceAllAbsent(s, Placeholder(name), ToText(value));
      assert forall j :: 0 <= j < |replacements[1..]| ==> replacements[1..][j] == replacements[j + 1];
      UnusedReplacementsKeepText(s, replacements[1..]);
    }
  }

  /** One replacement fills in every occurrence of its placeholder: text
      pieces between the occurrences are kept and each occurrence becomes
      `String(value)`. */
  lemma EveryOccurrenceReplaced(parts: seq<string>, name: string, value: ReplacementValue)
    requires |parts| >= 1
    requires '{' !in name && !IsBracedQuantifier(name)
    requires forall i :: 0 <= i < |parts| ==> !Occurs(parts[i], Placeholder(name))
    ensures Substitute(Join(parts, Placeholder(name)), [(name, value)]) == Done(Join(parts, ToText(value)))
  {
    var pat, text := Placeholder(name), ToText(value);
    PlaceholderShape(name);
    ReplaceAllJoin(parts, pat, text);
    SubstituteOne(Join(parts, pat), name, value, Join(parts, text));
  }

  /** A found non-empty entry with replacements gives the entry with the
      placeholders filled in, unless a replacement name throws. */
  lemma FoundEntrySubstituted(table: Node, language: string, key: string, replacements: Replacements,
                              entry: string, filled: string)
    requires var found := Lookup(table, Split(key, '.'));
             found.Some? && Pick(found.value, language) == Some(entry)
    requires entry != "" && Substitute(entry, replacements) == Done(filled)
    ensures Resolve(table, language, key, Some(replacements)) == filled
  {
  }

  lemma PlaceholderShape(name: string)
    requires '{' !in name
    ensures IsPlaceholder(Placeholder(name))
  {
    assert Placeholder(name)[1..] == name + "}";
  }

  /** A worked example: a French lookup of an entry with only English text
      falls back to English and fills in the name. */
  lemma Example()
    ensures Resolve(ExampleTable(), "fr", "game.welcome", Some([("user", Str("Ana"))])) == "Hi Ana!"
  {
    ExampleKey();
    ExampleWalk();
    ExampleFill();
    FoundEntrySubstituted(ExampleTable(), "fr", "game.welcome", [("user", Str("Ana"))], "Hi {user}!", "Hi Ana!");
  }

  function ExampleTable(): Node
  {
    Branch(map["game" := Branch(map["welcome" := Leaf(map["en" := "Hi {user}!"])])])
  }

  lemma ExampleKey()
    ensures Split("game.welcome", '.') == ["game", "welcome"]
  {
    assert Join(["game", "welcome"], ".") == "game.welcome";
    SplitJoin(["game", "welcome"], '.');
  }

  lemma ExampleWalk()
    ensures Lookup(ExampleTable(), ["game", "welcome"]) == Some(Leaf(map["en" := "Hi {user}!"]))
  {
  }

  lemma ExampleFill()
    ensures Substitute("Hi {user}!", [("user", Str("Ana"))]) == Done("Hi Ana!")
  {
    ExampleReplace();
    assert Placeholder("user") == "{user}";
    SubstituteOne("Hi {user}!", "user", Str("Ana"), "Hi Ana!");
  }

  lemma ExampleReplace()
    ensures ReplaceAll("Hi {user}!", "{user}", "Ana") == "Hi Ana!"
  {
    var pat := "{user}";
    assert IsPlaceholder(pat) by {
      assert pat[1..] == "user}";
    }
    assert "Hi {user}!" == "Hi " + pat + "!";
    ReplaceShortAround("Hi ", pat, "Ana", "!");
  }

  /** A placeholder between two pieces too short to hold it is the only
      thing replaced. */
  lemma ReplaceShortAround(a: string, pat: string, rep: string, b: string)
    requires IsPlaceholder(pat) && |a| < |pat| && |b| < |pat|
    ensures ReplaceAll(a + pat + b, pat, rep) == a + rep + b
  {
    ShorterAbsent(a, pat);
    ShorterAbsent(b, pat);
    ReplaceAllLeading(a, pat, rep, b);
    ReplaceAllAbsent(b, pat, rep);
  }

  /** Names are applied one after another to the text so far, so a value
      inserted for an earlier name is searched for later names: `{a}` with
      `a` = `{b}` and then `b` = `X` gives `X`. */
  lemma LaterNamesSeeInsertedText()
    ensures Substitute("{a}", [("a", Str("{b}")), ("b", Str("X"))]) == Done("X")
  {
    var reps := [("a", Str("{b}")), ("b", Str("X"))];
    WholePlaceholderReplaced("a", "{b}");
    assert reps[1..] == [("b", Str("X"))];
    assert !IsBracedQuantifier("a");
    WholePlaceholderReplaced("b", "X");
    SubstituteOne("{b}", "b", Str("X"), "X");
  }

  /** A text that is exactly one placeholder becomes the value. */
  lemma WholePlaceholderReplaced(name: string, rep: string)
    requires '{' !in name
    ensures ReplaceAll(Placeholder(name), Placeholder(name), rep) == rep
  {
    var pat := Placeholder(name);
    assert pat[1..] == name + "}";
    assert "" + pat + "" == pat;
    ReplaceAllLeading("", pat, rep, "");
    ReplaceAllAbsent("", pat, rep);
  }

  lemma ShorterAbsent(s: string, pat: string)
    requires |s| < |pat|
    ensures !Occurs(s, pat)
  {
  }

  lemma SubstituteOne(s: string, name: string, value: ReplacementValue, r: string)
    requires !IsBracedQuantifier(name) && ReplaceAll(s, Placeholder(name), ToText(value)) == r
    ensures Substitute(s, [(name, value)]) == Done(r)
  {
    assert [(name, value)][1..] == [];
  }
}
