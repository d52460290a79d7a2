/**
 * `RJGit::Configuration`: a git-config file read through a JGit `Config`
 * store, with a load-once flag, a `"section subsection"` lookup that returns
 * the settings of that scope as a Hash, and the value predicates that lookup
 * consults.
 */
module RJGit {
  import opened Common
  import opened RubyCore
  import opened JGitStore

  // ---------------------------------------------------------------------------
  // Value predicates

  /**
   * `is_num?(str)`: whether `Integer(str)` succeeds. The ArgumentError and
   * TypeError that `Integer` raises are rescued, so the predicate never raises;
   * any Integer it returns, 0 included, is truthy.
   */
  function IsNum(str: Value): (r: bool)
    ensures r <==> KernelInteger(str).Success?
    ensures str.Nil? ==> !r
  {
    match KernelInteger(str)
    case Success(n) => !(!Truthy(Int(n)))
    case Failure(ArgumentError) => false
    case Failure(TypeError) => false
  }

  /** Every integer, written out in decimal, is recognised by `is_num?`. */
  lemma IsNumOfDecimal(n: int)
    ensures IsNum(Str(IntToDecimal(n)))
  {
  }

  /**
   * `is_bool?(str)`: `str == ("true" || "false")`. The parenthesised `||`
   * evaluates to its truthy left operand, so only `"true"` is recognised.
   */
  function IsBool(str: Value): (r: bool)
    ensures r <==> str == Str("true")
  {
    str == Or(Str("true"), Str("false"))
  }

  /** `to_boolean(str)`: true exactly for `"true"`, which is where `is_bool?` holds. */
  function ToBoolean(str: Value): (r: bool)
    ensures r <==> IsBool(str)
  {
    str == Str("true")
  }

  /** The string `"false"` is neither a boolean to `is_bool?` nor true to `to_boolean`. */
  lemma FalseIsNotBoolean()
    ensures !IsBool(Str("false")) && !ToBoolean(Str("false"))
    ensures IsBool(Str("true")) && ToBoolean(Str("true"))
  {
  }

  // ---------------------------------------------------------------------------
  // The `case` expression of build_settings_hash

  /**
   * The value `build_settings_hash` stores for the raw `getString` result `o`.
   * Each `when` arm compares a boolean (the result of `is_num?` or `is_bool?`)
   * with `===` against the raw value, which is a String or nil, so neither arm
   * is ever taken and the raw value is stored unchanged.
   */
  function Setting(o: Option<string>): (r: Value)
    ensures r == FromJava(o)
    ensures r.Nil? || r.Str?
  {
    var value := FromJava(o);
    if CaseEq(Bool(IsNum(value)), value) then Int(ToI(o))
    else if CaseEq(Bool(IsBool(value)), value) then Bool(ToBoolean(value))
    else value
  }

  /**
   * A setting whose text is an integer is recognised by `is_num?`, and the
   * `value.to_i` of its arm would give that integer; yet the text is what is stored.
   */
  lemma IntegerSettingStaysString(n: int)
    ensures IsNum(Str(IntToDecimal(n)))
    ensures ToI(Some(IntToDecimal(n))) == n
    ensures Setting(Some(IntToDecimal(n))) == Str(IntToDecimal(n))
    ensures Setting(Some(IntToDecimal(n))) != Int(n)
  {
    IntegerOfDecimal(n);
    ToIAgreesWithInteger(IntToDecimal(n));
  }

  /** A setting whose text is `"true"` is still stored as that text, not as `true`. */
  lemma TrueSettingStaysString()
    ensures IsBool(Str("true"))
    ensures Setting(Some("true")) == Str("true")
    ensures Setting(Some("true")) != Bool(true)
  {
  }

  // ---------------------------------------------------------------------------
  // Lookup keys

  /**
   * `section, subsection = key.split`: the first whitespace-separated word is
   * the section and the second the subsection, each nil when missing; further
   * words are dropped.
   */
  function KeyScope(key: string): (sc: Scope)
    ensures sc.subsection.Some? ==> sc.section.Some?
    ensures sc.section.Some? ==> IsWord(sc.section.value)
    ensures sc.subsection.Some? ==> IsWord(sc.subsection.value)
  {
    var words := Split(key);
    Scope(if |words| > 0 then Some(words[0]) else None,
          if |words| > 1 then Some(words[1]) else None)
  }

  /**
   * The scope a key names, for a key made of optional leading whitespace and
   * words separated by runs of any whitespace, with optional trailing whitespace.
   */
  lemma KeyScopeOfWords(lead: string, words: seq<string>, seps: seq<string>)
    requires AllSpace(lead)
    requires |seps| == |words|
    requires forall i :: 0 <= i < |words| ==> IsWord(words[i])
    requires forall i :: 0 <= i < |seps| ==> AllSpace(seps[i])
    requires forall i :: 0 <= i < |seps| - 1 ==> seps[i] != []
    ensures KeyScope(lead + Spread(words, seps)).section == if |words| > 0 then Some(words[0]) else None
    ensures KeyScope(lead + Spread(words, seps)).subsection == if |words| > 1 then Some(words[1]) else None
  {
    SplitSkipsLeadingSpace(lead, Spread(words, seps));
    SplitSpread(words, seps);
  }

  /** The scope of a key, read off the words `split` gives for it. */
  lemma KeyScopeOfSplit(key: string, words: seq<string>)
    requires Split(key) == words
    ensures KeyScope(key) == Scope(if |words| > 0 then Some(words[0]) else None,
                                   if |words| > 1 then Some(words[1]) else None)
  {
  }

  /** `"section"` names the scope without subsection; `"section sub ..."` the subsection `sub`. */
  lemma KeyScopeExamples(section: string, subsection: string, extra: seq<string>)
    requires IsWord(section) && IsWord(subsection)
    requires forall i :: 0 <= i < |extra| ==> IsWord(extra[i])
    ensures KeyScope(section) == Scope(Some(section), None)
    ensures KeyScope(Join([section, subsection] + extra)) == Scope(Some(section), Some(subsection))
  {
    SplitJoin([section]);
    KeyScopeOfSplit(Join([section]), [section]);
    var words := [section, subsection] + extra;
    assert forall i :: 0 <= i < |words| ==> IsWord(words[i]);
    SplitJoin(words);
    KeyScopeOfSplit(Join(words), words);
  }

  /** A tab, a run of spaces and trailing whitespace separate words like a single space. */
  lemma KeyScopeOfSeparators(section: string, subsection: string)
    requires IsWord(section) && IsWord(subsection)
    ensures KeyScope(section + "\t" + subsection) == Scope(Some(section), Some(subsection))
    ensures KeyScope(section + "  " + subsection) == Scope(Some(section), Some(subsection))
    ensures KeyScope(section + " ") == Scope(Some(section), None)
  {
    KeyScopeOfWords("", [section, subsection], ["\t", ""]);
    assert Spread([subsection], [""]) == subsection;
    assert Spread([section, subsection], ["\t", ""]) == section + "\t" + subsection;
    assert "" + Spread([section, subsection], ["\t", ""]) == section + "\t" + subsection;
    KeyScopeOfWords("", [section, subsection], ["  ", ""]);
    assert "" + Spread([section, subsection], ["  ", ""]) == section + "  " + subsection;
    KeyScopeOfWords("", [section], [" "]);
    assert "" + Spread([section], [" "]) == section + " ";
  }

  /** Whitespace before the section name makes no difference. */
  lemma KeyScopeIgnoresLeadingSpace(ws: string, key: string)
    requires forall i :: 0 <= i < |ws| ==> IsSpace(ws[i])
    ensures KeyScope(ws + key) == KeyScope(key)
  {
    SplitSkipsLeadingSpace(ws, key);
  }

  /** The section is nil exactly when the key is empty or all whitespace. */
  lemma KeyScopeNoSection(key: string)
    ensures KeyScope(key).section.None? <==> AllSpace(key)
  {
    SplitEmpty(key);
  }

  /** A key that is empty or all whitespace names neither a section nor a subsection. */
  lemma KeyScopeOfBlank(key: string)
    requires forall i :: 0 <= i < |key| ==> IsSpace(key[i])
    ensures KeyScope(key) == Scope(None, None)
  {
    SplitSkipsLeadingSpace(key, "");
    assert key + "" == key;
  }

  // ---------------------------------------------------------------------------
  // The settings Hash of one scope

  /**
   * `h` is what `build_settings_hash` returns for scope `sc` of `store`: one
   * key per name of the scope, in the store's order, each mapped to the raw
   * string `getString` returns (nil when there is none).
   */
  predicate IsSettingsHash(h: Hash, store: Store, sc: Scope)
  {
    && h.Valid()
    && h.keys == store.Names(sc)
    && forall n :: n in h.at ==> h.at[n] == FromJava(store.GetString(sc, n))
  }

  /** After `setString(sc, name, value)`, the settings Hash of `sc` maps `name` to `value`. */
  lemma SetStringReadsBack(store: Config, sc: Scope, name: string, value: string, h: Hash)
    requires IsSettingsHash(h, store.SetString(sc, name, value), sc)
    ensures name in h.at && h.at[name] == Str(value)
  {
  }

  /**
   * `add_setting` without a subsection writes to the scope whose subsection is
   * `""`, which is not the scope `self["section"]` reads (subsection nil).
   */
  lemma DefaultSubsectionIsNotNil(store: Config, section: string, name: string, value: string, h: Hash)
    ensures IsSettingsHash(h, store, Scope(Some(section), None))
        <==> IsSettingsHash(h, store.SetString(Scope(Some(section), Some("")), name, value), Scope(Some(section), None))
  {
  }

  // ---------------------------------------------------------------------------
  // Loading

  /** `@loaded` and the JGit store: the state `load` reads and writes. */
  datatype LoadState = LoadState(loaded: Option<bool>, jconfig: Config)

  /** How `load` ends: it returns `self`, or raises an IOException with a message. */
  datatype LoadOutcome = ReturnedSelf | RaisedIOException(message: string)

  /** The Ruby value of `@loaded`: nil before any `load`, then true or false. */
  function FlagValue(flag: Option<bool>): (v: Value)
    ensures v.Nil? || v.Bool?
    ensures Truthy(v) <==> flag == Some(true)
  {
    match flag
    case None => Nil
    case Some(b) => Bool(b)
  }

  /**
   * One call of `load`, given what `IO.read(@path)` does (the text, or the
   * message of what it raised) and what JGit's `from_text` makes of a text
   * (a store, or the message of what it raised). `from_text` is assumed to
   * leave the store unchanged when it raises.
   */
  function LoadStep(st: LoadState, read: Result<string, string>,
                    fromText: string -> Result<Config, string>): (r: (LoadState, LoadOutcome))
    ensures Truthy(FlagValue(st.loaded)) ==> r == (st, ReturnedSelf)
    ensures r.1 == ReturnedSelf <==> r.0.loaded == Some(true)
    ensures r.1.RaisedIOException? <==> r.0.loaded == Some(false)
    ensures r.1.RaisedIOException? ==> r.0.jconfig == st.jconfig
  {
    if Truthy(FlagValue(st.loaded)) then (st, ReturnedSelf)
    else
      var parsed := match read
                    case Failure(message) => Failure(message)
                    case Success(text) => fromText(text);
      match parsed
      case Success(c) => (LoadState(Some(true), c), ReturnedSelf)
      case Failure(message) => (LoadState(Some(false), st.jconfig), RaisedIOException(message))
  }

  /** A load that reads and parses a text installs the parsed store and sets the flag. */
  lemma LoadSucceeds(st: LoadState, text: string, fromText: string -> Result<Config, string>)
    requires !Truthy(FlagValue(st.loaded))
    requires fromText(text).Success?
    ensures LoadStep(st, Success(text), fromText) == (LoadState(Some(true), fromText(text).value), ReturnedSelf)
  {
  }

  /** A failing read or parse is re-raised as an IOException with the same message. */
  lemma LoadFailureKeepsMessage(st: LoadState, read: Result<string, string>,
                                fromText: string -> Result<Config, string>)
    requires !Truthy(FlagValue(st.loaded))
    ensures read.Failure? ==>
      LoadStep(st, read, fromText).1 == RaisedIOException(read.error)
    ensures read.Success? && fromText(read.value).Failure? ==>
      LoadStep(st, read, fromText).1 == RaisedIOException(fromText(read.value).error)
  {
  }

  /**
   * Once a load has returned `self`, every later load returns `self` at once,
   * whatever reading or parsing would now do, and changes nothing.
   */
  lemma LoadIsIdempotent(st: LoadState, read1: Result<string, string>, fromText1: string -> Result<Config, string>,
                         read2: Result<string, string>, fromText2: string -> Result<Config, string>)
    requires LoadStep(st, read1, fromText1).1 == ReturnedSelf
    ensures var st1 := LoadStep(st, read1, fromText1).0;
            LoadStep(st1, read2, fromText2) == (st1, ReturnedSelf)
  {
  }

  /**
   * A failed load does not latch: a store whose flag is false loads exactly as
   * one that was never loaded.
   */
  lemma FailedLoadRetries(c: Config, read: Result<string, string>, fromText: string -> Result<Config, string>)
    ensures LoadStep(LoadState(Some(false), c), read, fromText) == LoadStep(LoadState(None, c), read, fromText)
  {
  }

  // ---------------------------------------------------------------------------
  // The object

  class Configuration {
    /** The file the configuration is read from. */
    const path: string
    /** The JGit `Config` (`@jconfig`). */
    var jconfig: Config
    /** `@loaded`: None while it is unassigned (nil). */
    var loaded: Option<bool>

    /** `Configuration.new(path)`: an empty store; `@loaded` is left unassigned. */
    constructor (path: string)
      ensures this.path == path
      ensures jconfig == EmptyStore()
      ensures loaded == None
    {
      this.path := path;
      jconfig := EmptyStore();
      loaded := None;
    }

    function State(): LoadState
      reads this
    {
      LoadState(loaded, jconfig)
    }

    /** `loaded?`: nil before any load, otherwise whether the last load succeeded. */
    function IsLoaded(): (r: Value)
      reads this
      ensures r.Nil? <==> loaded == None
      ensures Truthy(r) <==> loaded == Some(true)
    {
      FlagValue(loaded)
    }

    /**
     * `load`, where `read` stands for `IO.read(path)` and `fromText` for
     * `@jconfig.from_text`. Neither is consulted once `@loaded` is true.
     */
    method Load(read: Result<string, string>, fromText: string -> Result<Config, string>)
      returns (outcome: LoadOutcome)
      modifies this
      ensures (State(), outcome) == LoadStep(old(State()), read, fromText)
    {
      if Truthy(FlagValue(loaded)) {
        return ReturnedSelf;
      }
      var parsed: Result<Config, string>;
      match read {
        case Failure(message) =>
          parsed := Failure(message);
        case Success(text) =>
          parsed := fromText(text);
      }
      match parsed {
        case Success(c) =>
          jconfig := c;
          loaded := Some(true);
          outcome := ReturnedSelf;
        case Failure(message) =>
          loaded := Some(false);
          outcome := RaisedIOException(message);
      }
    }

    /** `names(section, subsection)`: the scope's setting names, none repeated. */
    function Names(section: Option<string>, subsection: Option<string>): (r: seq<string>)
      reads this
      ensures Distinct(r)
    {
      jconfig.Names(Scope(section, subsection))
    }

    /** `build_settings_hash(section, subsection)`. */
    method BuildSettingsHash(section: Option<string>, subsection: Option<string>) returns (settings: Hash)
      ensures IsSettingsHash(settings, jconfig, Scope(section, subsection))
    {
      var sc := Scope(section, subsection);
      var names := Names(section, subsection);
      settings := EmptyHash();
      var i := 0;
      while i < |names|
        invariant i <= |names|
        invariant settings.Valid()
        invariant settings.keys == names[..i]
        invariant forall n :: n in settings.at ==> settings.at[n] == FromJava(jconfig.GetString(sc, n))
      {
        var name := names[i];
        var value := jconfig.GetString(sc, name);
        settings := settings.Put(name, Setting(value));
        i := i + 1;
      }
      assert names[..i] == names;
    }

    /** `self[key]`: the settings Hash of the scope the key's first two words name. */
    method Index(key: string) returns (settings: Hash)
      ensures IsSettingsHash(settings, jconfig, KeyScope(key))
    {
      var sc := KeyScope(key);
      settings := BuildSettingsHash(sc.section, sc.subsection);
    }

    /** `add_setting(name, value, section, subsection)` with the subsection given (possibly nil). */
    method AddSetting(name: string, value: string, section: string, subsection: Option<string>)
      modifies this
      ensures jconfig == old(jconfig).SetString(Scope(Some(section), subsection), name, value)
      ensures loaded == old(loaded)
    {
      jconfig := jconfig.SetString(Scope(Some(section), subsection), name, value);
    }

    /** `add_setting(name, value, section)`: the subsection defaults to `""`. */
    method AddSettingDefault(name: string, value: string, section: string)
      modifies this
      ensures jconfig == old(jconfig).SetString(Scope(Some(section), Some("")), name, value)
      ensures jconfig.Names(Scope(Some(section), None)) == old(jconfig.Names(Scope(Some(section), None)))
      ensures loaded == old(loaded)
    {
      AddSetting(name, value, section, Some(""));
    }
  }
}
