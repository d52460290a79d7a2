/**
 * The JGit `Config` object the wrapper delegates to, seen only from the
 * outside: for each scope (an optional section and an optional subsection) an ordered
 * list of setting names, and for each (scope, name) the string `getString`
 * returns. How JGit parses, renders or case-folds is not part of this model.
 */
module JGitStore {
  import opened Common

  /**
   * An optional section and an optional subsection, as the wrapper passes them
   * to JGit. A missing subsection (`nil`) and an empty one (`""`) are different
   * scopes. A blank key gives a nil section, which is assumed to be answered
   * like any other scope.
   */
  datatype Scope = Scope(section: Option<string>, subsection: Option<string>)

  datatype Store = Store(names: map<Scope, seq<string>>, values: map<(Scope, string), string>)
  {
    /** `getNames` returns a set: no scope lists a name twice. */
    predicate Valid()
    {
      forall sc :: sc in names ==> Distinct(names[sc])
    }

    /** `getNames(section, subsection)`: the names of the scope, in order; none when it is absent. */
    function Names(sc: Scope): seq<string>
    {
      if sc in names then names[sc] else []
    }

    /** `getString(section, subsection, name)`: the value, or `null` when there is none. */
    function GetString(sc: Scope, name: string): Option<string>
    {
      if (sc, name) in values then Some(values[(sc, name)]) else None
    }

    /**
     * `setString(section, subsection, name, value)`: afterwards the name reads
     * back as `value` and is among the scope's names, which are otherwise the
     * same; every other scope and every other name is left as it was. Where
     * JGit lists a new name is not promised (the body appends it).
     */
    function SetString(sc: Scope, name: string, value: string): (r: Store)
      ensures Valid() ==> r.Valid()
      ensures r.GetString(sc, name) == Some(value)
      ensures forall n :: n in r.Names(sc) <==> n in Names(sc) || n == name
      ensures forall other :: other != sc ==> r.Names(other) == Names(other)
      ensures forall other, n :: (other, n) != (sc, name) ==> r.GetString(other, n) == GetString(other, n)
    {
      var listed := Names(sc);
      Store(names[sc := if name in listed then listed else listed + [name]],
            values[(sc, name) := value])
    }
  }

  /** The store of a freshly created `Config`: no scope, no value. */
  function EmptyStore(): (s: Store)
    ensures s.Valid()
    ensures forall sc :: s.Names(sc) == []
    ensures forall sc, n :: s.GetString(sc, n) == None
  {
    Store(map[], map[])
  }

  /** The stores a JGit `Config` can be in. */
  type Config = s: Store | s.Valid() witness Store(map[], map[])
}
