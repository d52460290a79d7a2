# RJGit::Configuration in Dafny

This project models `RJGit::Configuration`, the Ruby wrapper that reads a
git-config file through a JGit `Config` object. The wrapper:

- loads the file once, guarded by a `@loaded` flag;
- looks up the settings of a scope by a key `"section subsection"`;
- builds a Hash from each setting name of the scope to its value;
- adds settings.

The JGit `Config` is modelled from the outside only, as a store (`JGitStore`).
For each scope (an optional section and an optional subsection) it holds an ordered list
of distinct setting names. For each (scope, name) it holds the string
`getString` returns. A missing subsection (`nil`) and the empty subsection `""`
are different scopes.

Files:

- `common.dfy`: `Option`, `Result` and `Distinct`.
- `ruby_core.dfy` (module `RubyCore`): the Ruby semantics the wrapper relies on.
  This covers values and truthiness, `||`, `case`/`when` matching, `String#split`,
  `Kernel#Integer`, `String#to_i`, `Integer#to_s` and the insertion-ordered `Hash`.
- `jgit_store.dfy` (module `JGitStore`): the abstract JGit store.
- `config.dfy` (module `RJGit`): the wrapper. Its value predicates and key
  splitting are functions. The load step has a specification function,
  `LoadStep`, with lemmas about it. The value predicates `is_num?`, `is_bool?`
  and `to_boolean` are module-level functions (`IsNum`, `IsBool`, `ToBoolean`).
  The class `Configuration` has the fields `path`, `jconfig` and `loaded`. It
  has members for `initialize`, `load`, `loaded?`, `[]`, `build_settings_hash`
  and `names`. `add_setting` has two members: `AddSetting` takes the subsection
  explicitly, and `AddSettingDefault` omits it.

The model follows the code as written. The code differs from what it seems to
intend in these ways:

- `build_settings_hash` never converts values. Each `when` arm of its `case`
  compares the boolean result of `is_num?` or `is_bool?` with `===` against the
  raw value. That value is a String or nil, so no arm matches and every entry is
  the raw `getString` result. `Setting`, `IntegerSettingStaysString` and
  `TrueSettingStaysString` prove this.
- `is_bool?` compares with `("true" || "false")`, which is `"true"`, so `"false"`
  is never recognised as a boolean (`IsBool`, `FalseIsNotBoolean`).
- A failed `load` does not latch. It sets `@loaded` to false, and the guard
  tests only `@loaded`, so a later `load` reads again (`FailedLoadRetries`).
  Before any `load`, `loaded?` is nil, not false.
- A lookup returns the raw value `getString` gives; no value is converted.

`IO.read(@path)` and `from_text` are parameters of `Load`. The first is the
text or the message of what reading raised. The second maps a text to a store
or to the message of what parsing raised. `from_text` is assumed to leave the
store unchanged when it raises, so a failed `load` keeps the old store.

## Model

| member | source | states |
|---|---|---|
| `RJGit.IsNum` | lib/config.rb:46-52 | `is_num?` holds exactly when `Integer(str)` returns. The ArgumentError and TypeError it raises become false, so nil is not a number and the predicate never raises. |
| `RJGit.IsNumOfDecimal` | lib/config.rb:46-52 | Every integer written in decimal is recognised by `is_num?`. |
| `RubyCore.IntegerOfDecimal` | lib/config.rb:48 | `Integer` undoes `to_s`: `Integer(n.to_s) == n` for every integer. |
| `RubyCore.ToIAgreesWithInteger` | lib/config.rb:37 | Whenever the model's decimal `Integer(s)` accepts `s`, `s.to_i` gives the same number. |
| `RJGit.IsBool` | lib/config.rb:54-56 | `is_bool?(str)` holds exactly when `str == "true"`, because `("true" \|\| "false")` evaluates to `"true"`. |
| `RJGit.ToBoolean` | lib/config.rb:58-60 | `to_boolean` is true exactly where `is_bool?` holds. |
| `RJGit.FalseIsNotBoolean` | lib/config.rb:54-60 | `"false"` is neither recognised by `is_bool?` nor true under `to_boolean`; `"true"` is both. |
| `RJGit.Setting` | lib/config.rb:36-40 | The `case` expression yields the raw value (a String or nil) unchanged: neither `when` arm can match. |
| `RJGit.IntegerSettingStaysString` | lib/config.rb:36-37 | For every integer's decimal text, `is_num?` holds and the arm's `value.to_i` would give that integer; the text is still stored, never the integer. |
| `RJGit.TrueSettingStaysString` | lib/config.rb:36-38 | The value `"true"`, accepted by `is_bool?`, is still stored as the text `"true"`, never as `true`. |
| `RubyCore.Hash.Put` | lib/config.rb:41 | `settings[name] = setting` keeps a valid Hash: a new key is appended to the key order, an existing key keeps its place, and the entry gets the new value. |
| `RubyCore.Split` | lib/config.rb:27 | `key.split` with no argument yields only non-empty fields that contain no whitespace. |
| `RubyCore.SplitEmpty` | lib/config.rb:27 | `split` yields no field exactly when the text is empty or all whitespace. |
| `RubyCore.SplitJoin` | lib/config.rb:27 | `split` with no argument undoes joining whitespace-free words with single spaces, as a case of `SplitSpread`. |
| `RubyCore.SplitSpread` | lib/config.rb:27 | `split` recovers the words of any text whose words are separated by non-empty runs of whitespace (spaces, tabs, newlines...), with any trailing whitespace. |
| `RJGit.KeyScope` | lib/config.rb:27 | `section, subsection = key.split`: a subsection is present only with a section; each present part is one whitespace-free word. Which words they are is stated by `KeyScopeOfWords`. |
| `RJGit.KeyScopeOfWords` | lib/config.rb:26-28 | In `self[key]`, for a key of words separated by any whitespace runs, with optional leading and trailing whitespace, the section is the first word and the subsection the second, each nil when missing. |
| `RJGit.KeyScopeOfSeparators` | lib/config.rb:26-28 | `"sec\tsub"` and `"sec  sub"` name subsection `sub` of `sec`; `"sec "` names `sec` without subsection. |
| `RJGit.KeyScopeExamples` | lib/config.rb:26-28 | `"sec"` names the scope without subsection; `"sec sub more..."` names subsection `sub` and drops the further words. |
| `RJGit.KeyScopeIgnoresLeadingSpace` | lib/config.rb:27 | Whitespace before the section name does not change the scope. |
| `RJGit.KeyScopeNoSection` | lib/config.rb:27 | The section is nil exactly when the key is empty or all whitespace. |
| `RJGit.KeyScopeOfBlank` | lib/config.rb:27 | An empty or all-whitespace key gives a nil section and a nil subsection. |
| `RJGit.Configuration.BuildSettingsHash` | lib/config.rb:31-44 | The Hash has exactly one key per name of the scope, in the order of `names`, and each value is the raw `get_string` result for that name. |
| `RJGit.Configuration.Index` | lib/config.rb:26-29 | `self[key]` returns the settings Hash of the scope named by the key's first two words. |
| `RJGit.Configuration.Names` | lib/config.rb:82-84 | `names(section, subsection)` lists no name twice. |
| `JGitStore.Store.SetString` | lib/config.rb:79 | The store's `set_string`: the name reads back as the value; the scope's names are the old ones plus this name; other scopes and names are unchanged; names stay distinct. |
| `RJGit.Configuration.AddSetting` | lib/config.rb:78-80 | `add_setting` applies `set_string` to the given scope and leaves `@loaded` alone. |
| `RJGit.Configuration.AddSettingDefault` | lib/config.rb:78-80 | Without a subsection, `add_setting` writes to subsection `""`; the scope with a nil subsection is unchanged. |
| `RJGit.SetStringReadsBack` | lib/config.rb:78-80 | After `add_setting`, the settings Hash of that scope maps the name to the new value. |
| `RJGit.DefaultSubsectionIsNotNil` | lib/config.rb:78-79 | `add_setting` without a subsection does not change what `self["section"]` returns. |
| `RJGit.Configuration.constructor` | lib/config.rb:9-12 | A new configuration has the given path, an empty store, and `@loaded` unassigned (nil). |
| `RJGit.Configuration.IsLoaded` | lib/config.rb:62-64 | `loaded?` is nil exactly when no load has run, and truthy exactly when the flag is true. |
| `RJGit.LoadStep` | lib/config.rb:14-24 | When `@loaded` is truthy, `load` returns `self` and changes nothing. It returns `self` exactly when the flag ends true, and raises exactly when the flag ends false. A raising load leaves the store as it was. |
| `RJGit.Configuration.Load` | lib/config.rb:14-24 | The object's new flag, new store and outcome are those of `LoadStep` on its old state. |
| `RJGit.LoadSucceeds` | lib/config.rb:17-23 | A successful read and parse installs the parsed store, sets `@loaded` to true and returns `self`. |
| `RJGit.LoadFailureKeepsMessage` | lib/config.rb:19-21 | A failing read or parse raises an IOException with the original message. |
| `RJGit.LoadIsIdempotent` | lib/config.rb:15 | After a load has returned `self`, any further load returns `self` at once. It changes nothing, whatever reading or parsing would now give. |
| `RJGit.FailedLoadRetries` | lib/config.rb:15-20 | After a failed load, a load behaves exactly as on a never-loaded object: the failure does not latch. |

## Left out

- The JGit `Config` internals are not modelled: parsing, rendering, case-insensitive matching of section and setting names, and multi-valued keys, for which `getString` returns the last value. The store is the abstract map described above.
- `sections`, `subsections` and `to_s` (lib/config.rb:66-76) only forward to JGit's section lists and serialiser, which are not part of this model.
- The `jconfig` reader hands out the JGit object; changes made through it behind the wrapper are not modelled.
- `IO.read` is file I/O. It is the `read` parameter of `Load`: a text, or the message of what reading raised.
- `rescue => exception` catches only StandardError. The model treats every failure of reading or parsing as rescued. Exceptions outside StandardError, which would escape `load` unchanged, are not modelled.
- `RJGit.IsNum`: accepts only an optional sign followed by decimal digits. Ruby's `Integer()` also accepts `0x`/`0b`/`0o`/`0d` prefixes, underscores between digits and surrounding whitespace. It reads a string with a leading zero as octal (`Integer("010")` is 8) and rejects one containing 8 or 9 (`"09"`). The model reads every such string as decimal. The value is only used in the dead `when` arm, so no stored setting depends on it.
- `RubyCore.ToIAgreesWithInteger`: the agreement holds for the model's decimal reading of `Integer()` only. Ruby reads a leading-zero string as octal, so `Integer("010")` is 8 while `"010".to_i` is 10. Radix prefixes differ the same way (`Integer("0x1A")` is 26, `"0x1A".to_i` is 0).
- `RubyCore.ToI`: `String#to_i` (base 10) also skips underscores between digits and an optional `0d` prefix; these are not modelled. Like Ruby, the model gives 0 for `"0x1A"` because it stops at the `x`. It is only reached from the dead `when` arm.
- `JGitStore.Store.SetString`: where JGit's `getNames` lists a name that `setString` has just added is not promised. The contract states only which names are listed.
- `RJGit.Configuration.Index`: for an empty or all-whitespace key, `split` gives no words and the wrapper asks JGit for `getNames(nil, nil)` and `getString(nil, nil, name)`. The model assumes JGit answers a nil section like any other scope, from the store's `Scope(None, None)` entry, rather than raising.
- Keys and arguments that are not Strings (a nil key raises NoMethodError in `split`) are outside the model. The class methods take strings.
