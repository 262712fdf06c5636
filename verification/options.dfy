/**
 * Per-call transliteration options (`Sanscript.Options`).
 *
 * `Options` is a Kotlin data class whose two list-valued fields are arrays.
 * Its generated `equals` compares Booleans by value but arrays by identity,
 * so each array is modelled with a handle that stands for its identity.
 */
module Config {

  /** A Kotlin `Array<String>`: the object's identity and its current contents. */
  datatype StringArray = StringArray(handle: nat, items: seq<string>)

  datatype Options = Options(
    skipSgml: bool,
    syncope: bool,
    skipStarters: StringArray,
    skipEnds: StringArray)

  /**
   * `Options()` with every default. Each evaluation of the default
   * arguments allocates two new arrays, whose identities are the handles.
   */
  function DefaultOptions(startersHandle: nat, endsHandle: nat): (o: Options)
    ensures !o.skipSgml && !o.syncope
    ensures o.skipStarters.items == ["["] && o.skipEnds.items == ["]"]
  {
    Options(false, false, StringArray(startersHandle, ["["]), StringArray(endsHandle, ["]"]))
  }

  /** Data-class `equals`: field by field, with arrays compared by identity. */
  predicate SameOptions(a: Options, b: Options) {
    && a.skipSgml == b.skipSgml
    && a.syncope == b.syncope
    && a.skipStarters.handle == b.skipStarters.handle
    && a.skipEnds.handle == b.skipEnds.handle
  }

  /**
   * Two separately built default option objects are never equal, even
   * though their contents agree: their arrays are different objects.
   */
  lemma FreshDefaultsDiffer(s1: nat, e1: nat, s2: nat, e2: nat)
    requires s1 != s2
    ensures !SameOptions(DefaultOptions(s1, e1), DefaultOptions(s2, e2))
    ensures DefaultOptions(s1, e1).skipStarters.items == DefaultOptions(s2, e2).skipStarters.items
  {
  }
}
