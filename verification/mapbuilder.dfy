/**
 * The map builder (`makeMap`).
 *
 * For every group of the source scheme that the destination also has, the
 * grapheme at position i of the source group, and each of its alternates, is
 * paired with the destination grapheme at position i. The source performs
 * these assignments into three hash maps in a fixed order; here that order is
 * made explicit as a sequence of writes (`SchemeWrites`), and each lookup
 * table is the result of applying the writes that target it (`Fill`), so a
 * later write to the same key wins, exactly as in the source.
 */
module MapBuilder {
  import opened Wrappers
  import opened Schemes

  /** The compiled transliteration map (`TMap`). `virama` is the destination's whole "virama" group. */
  datatype TMap = TMap(
    fromRoman: bool,
    toRoman: bool,
    consonants: map<string, string>,
    letters: map<string, string>,
    marks: map<string, string>,
    virama: seq<string>,
    maxTokenLength: nat)

  /** The exceptions `makeMap` can raise, as values. */
  datatype BuildError =
    | UnknownScheme(name: string)    // `schemes[...]!!` on an unregistered name
    | GroupTooShort(group: string)   // `toGroup[i]` past the end of the destination group
    | NoTokens                       // `tokenLengths.max()!!` with no shared grapheme
    | MissingVirama(scheme: string)  // `toScheme["virama"]!!` on a destination without that group

  /** One assignment `table[key] = value` made while walking group `group`. */
  datatype Write = Write(group: string, key: string, value: string)

  datatype Table = Letters | Marks | Consonants

  predicate IsMarkGroup(group: string) {
    group == "vowel_marks" || group == "virama"
  }

  predicate IsConsonantGroup(group: string) {
    group == "consonants" || group == "other"
  }

  /** Which groups feed which table. */
  predicate Targets(t: Table, group: string) {
    match t
    case Marks => IsMarkGroup(group)
    case Letters => !IsMarkGroup(group)
    case Consonants => IsConsonantGroup(group)
  }

  predicate WritesKey(t: Table, w: Write, key: string) {
    Targets(t, w.group) && w.key == key
  }

  /** The alternates of a source grapheme (none if it has no entry). */
  function AlternatesFor(alts: AlternateMap, f: string): seq<string> {
    if f in alts then alts[f] else []
  }

  /** The keys written for one source grapheme: itself, then its alternates. */
  function Spellings(alts: AlternateMap, f: string): seq<string> {
    [f] + AlternatesFor(alts, f)
  }

  /** The writes for one source position: every spelling of F mapped to T. */
  function PositionWrites(group: string, keys: seq<string>, t: string): seq<Write> {
    seq(|keys|, k requires 0 <= k < |keys| => Write(group, keys[k], t))
  }

  /** The writes for one shared group, position by position. */
  function GroupWrites(group: string, fromG: seq<string>, toG: seq<string>, alts: AlternateMap): (r: seq<Write>)
    requires |fromG| <= |toG|
    ensures forall j | 0 <= j < |r| :: r[j].group == group
  {
    if |fromG| == 0 then []
    else PositionWrites(group, Spellings(alts, fromG[0]), toG[0]) + GroupWrites(group, fromG[1..], toG[1..], alts)
  }

  /**
   * The writes of the whole walk over the source scheme, in order. Groups the
   * destination lacks are skipped; a destination group shorter than its
   * source group fails, as the array access in the source does.
   */
  function SchemeWrites(fromS: Scheme, toS: Scheme, alts: AlternateMap): Result<seq<Write>, BuildError>
    decreases |fromS|
  {
    if |fromS| == 0 then Success([])
    else
      var g := fromS[0];
      match FindGroup(toS, g.name)
      case None => SchemeWrites(fromS[1..], toS, alts)
      case Some(toG) =>
        if |toG| < |g.graphemes| then Failure(GroupTooShort(g.name))
        else
          var rest :- SchemeWrites(fromS[1..], toS, alts);
          Success(GroupWrites(g.name, g.graphemes, toG, alts) + rest)
  }

  /** Every group the two schemes share is at least as long in the destination. */
  predicate Fits(fromS: Scheme, toS: Scheme) {
    forall gi | 0 <= gi < |fromS| ::
      FindGroup(toS, fromS[gi].name).Some? ==> |fromS[gi].graphemes| <= |FindGroup(toS, fromS[gi].name).value|
  }

  /** The walk fails exactly when some shared group is shorter in the destination. */
  lemma {:induction false} SchemeWritesSucceedsIffFits(fromS: Scheme, toS: Scheme, alts: AlternateMap)
    ensures SchemeWrites(fromS, toS, alts).Success? <==> Fits(fromS, toS)
    decreases |fromS|
  {
    if |fromS| > 0 {
      SchemeWritesSucceedsIffFits(fromS[1..], toS, alts);
      assert forall gi | 1 <= gi < |fromS| :: fromS[gi] == fromS[1..][gi - 1];
      if Fits(fromS[1..], toS) {
        assert Fits(fromS, toS) <==> (FindGroup(toS, fromS[0].name).Some? ==>
                                        |fromS[0].graphemes| <= |FindGroup(toS, fromS[0].name).value|);
      } else {
        var gi :| 0 <= gi < |fromS[1..]| && FindGroup(toS, fromS[1..][gi].name).Some?
                  && |fromS[1..][gi].graphemes| > |FindGroup(toS, fromS[1..][gi].name).value|;
        assert fromS[1..][gi] == fromS[gi + 1];
      }
    }
  }

  /** On failure the error names a shared group that is too short in the destination. */
  lemma {:induction false} SchemeWritesFailure(fromS: Scheme, toS: Scheme, alts: AlternateMap) returns (gi: nat)
    requires SchemeWrites(fromS, toS, alts).Failure?
    ensures gi < |fromS| && SchemeWrites(fromS, toS, alts).error == GroupTooShort(fromS[gi].name)
    ensures FindGroup(toS, fromS[gi].name).Some?
    ensures |FindGroup(toS, fromS[gi].name).value| < |fromS[gi].graphemes|
    decreases |fromS|
  {
    var g := fromS[0];
    if FindGroup(toS, g.name).Some? && |FindGroup(toS, g.name).value| < |g.graphemes| {
      gi := 0;
    } else {
      var g' := SchemeWritesFailure(fromS[1..], toS, alts);
      assert fromS[1..][g'] == fromS[g' + 1];
      gi := g' + 1;
    }
  }

  /** A lookup table: the writes that target it, applied in order. */
  function Fill(t: Table, ws: seq<Write>): map<string, string>
    decreases |ws|
  {
    if |ws| == 0 then map[]
    else
      var w := ws[|ws| - 1];
      var m := Fill(t, ws[..|ws| - 1]);
      if Targets(t, w.group) then m[w.key := w.value] else m
  }

  /** The longest key among the writes: `tokenLengths.max()`. */
  function MaxKeyLength(ws: seq<Write>): (r: nat)
    ensures forall j | 0 <= j < |ws| :: |ws[j].key| <= r
    ensures |ws| > 0 ==> exists j | 0 <= j < |ws| :: |ws[j].key| == r
    ensures |ws| == 0 ==> r == 0
  {
    if |ws| == 0 then 0
    else
      var rest := MaxKeyLength(ws[1..]);
      assert forall j | 1 <= j < |ws| :: ws[j] == ws[1..][j - 1];
      if |ws[0].key| >= rest then |ws[0].key| else rest
  }

  /** The writes `makeMap` performs for the pair (from, to), or the error it raises. */
  function BuildWrites(reg: Registry, from: string, to: string): Result<seq<Write>, BuildError> {
    if from !in reg.schemes then Failure(UnknownScheme(from))
    else if to !in reg.schemes then
      // The destination is first dereferenced inside the loop, so an empty
      // source scheme reaches the empty `max()` first.
      Failure(if |reg.schemes[from]| > 0 then UnknownScheme(to) else NoTokens)
    else SchemeWrites(reg.schemes[from], reg.schemes[to], AlternatesOf(reg, from))
  }

  /** The map assembled from a successful walk and the destination virama. */
  function Assemble(reg: Registry, from: string, to: string, ws: seq<Write>, virama: seq<string>): TMap {
    TMap(
      IsRomanScheme(reg, from), IsRomanScheme(reg, to),
      Fill(Consonants, ws), Fill(Letters, ws), Fill(Marks, ws),
      virama, MaxKeyLength(ws))
  }

  /** `makeMap(from, to)`. */
  function MakeMap(reg: Registry, from: string, to: string): (r: Result<TMap, BuildError>)
    ensures from !in reg.schemes ==> r == Failure(UnknownScheme(from))
    ensures from in reg.schemes && to !in reg.schemes ==>
              r == Failure(if |reg.schemes[from]| > 0 then UnknownScheme(to) else NoTokens)
    ensures r.Success? ==>
              && from in reg.schemes && to in reg.schemes
              && r.value.fromRoman == IsRomanScheme(reg, from)
              && r.value.toRoman == IsRomanScheme(reg, to)
              && FindGroup(reg.schemes[to], "virama").Some?
              && r.value.virama == FindGroup(reg.schemes[to], "virama").value
  {
    match BuildWrites(reg, from, to)
    case Failure(e) => Failure(e)
    case Success(ws) =>
      if |ws| == 0 then Failure(NoTokens)
      else
        match FindGroup(reg.schemes[to], "virama")
        case None => Failure(MissingVirama(to))
        case Some(v) => Success(Assemble(reg, from, to, ws, v))
  }

  /**
   * The token-length bound and the consonant/letter inclusion: every key of
   * every table is at most maxTokenLength long, and every consonant key is
   * also a letter key.
   */
  lemma MakeMapTablesBounded(reg: Registry, from: string, to: string)
    requires MakeMap(reg, from, to).Success?
    ensures var m := MakeMap(reg, from, to).value;
            && m.consonants.Keys <= m.letters.Keys
            && (forall k | k in m.letters :: |k| <= m.maxTokenLength)
            && (forall k | k in m.marks :: |k| <= m.maxTokenLength)
            && (forall k | k in m.consonants :: |k| <= m.maxTokenLength)
  {
    MakeMapParts(reg, from, to);
    var ws := BuildWrites(reg, from, to).value;
    TableKeysBounded(ws);
    ConsonantKeysAreLetterKeys(ws);
  }

  // ---------------------------------------------------------------------
  // Properties of the tables
  // ---------------------------------------------------------------------

  /** A key is in a table exactly when some write targeting that table has it. */
  lemma {:induction false} FillKeys(t: Table, ws: seq<Write>, key: string)
    ensures key in Fill(t, ws) <==> exists j | 0 <= j < |ws| :: WritesKey(t, ws[j], key)
    decreases |ws|
  {
    if |ws| > 0 {
      var init := ws[..|ws| - 1];
      FillKeys(t, init, key);
      assert forall j | 0 <= j < |init| :: init[j] == ws[j];
    }
  }

  /** The value of a key is the value of the last write to it: later writes win. */
  lemma {:induction false} FillLastWriteWins(t: Table, ws: seq<Write>, i: nat)
    requires i < |ws| && Targets(t, ws[i].group)
    requires forall j | i < j < |ws| :: !WritesKey(t, ws[j], ws[i].key)
    ensures ws[i].key in Fill(t, ws) && Fill(t, ws)[ws[i].key] == ws[i].value
    decreases |ws|
  {
    if i < |ws| - 1 {
      var init := ws[..|ws| - 1];
      assert forall j | 0 <= j < |init| :: init[j] == ws[j];
      FillLastWriteWins(t, init, i);
    }
  }

  /** If every write of a key to a table carries the same value, the table holds that value. */
  lemma {:induction false} FillAgreeing(t: Table, ws: seq<Write>, key: string, v: string)
    requires exists j | 0 <= j < |ws| :: WritesKey(t, ws[j], key)
    requires forall j | 0 <= j < |ws| && WritesKey(t, ws[j], key) :: ws[j].value == v
    ensures key in Fill(t, ws) && Fill(t, ws)[key] == v
    decreases |ws|
  {
    var init := ws[..|ws| - 1];
    assert forall j | 0 <= j < |init| :: init[j] == ws[j];
    if !WritesKey(t, ws[|ws| - 1], key) {
      var j :| 0 <= j < |ws| && WritesKey(t, ws[j], key);
      assert WritesKey(t, init[j], key);
      FillAgreeing(t, init, key, v);
    }
  }

  /** Consonant-group writes are also letter writes, so consonant keys are letter keys. */
  lemma ConsonantKeysAreLetterKeys(ws: seq<Write>)
    ensures Fill(Consonants, ws).Keys <= Fill(Letters, ws).Keys
  {
    forall key | key in Fill(Consonants, ws)
      ensures key in Fill(Letters, ws)
    {
      FillKeys(Consonants, ws, key);
      FillKeys(Letters, ws, key);
    }
  }

  /** No table key is longer than the longest written key. */
  lemma TableKeysBounded(ws: seq<Write>)
    ensures forall t, k | k in Fill(t, ws) :: |k| <= MaxKeyLength(ws)
  {
    forall t, k | k in Fill(t, ws)
      ensures |k| <= MaxKeyLength(ws)
    {
      FillKeys(t, ws, k);
    }
  }

  // ---------------------------------------------------------------------
  // Which writes the walk performs
  // ---------------------------------------------------------------------

  /** The write for spelling k of position i of source group gi is a write the walk can perform. */
  predicate FromPosition(fromS: Scheme, toS: Scheme, alts: AlternateMap, w: Write) {
    exists gi, i, k | 0 <= gi < |fromS| && 0 <= i < |fromS[gi].graphemes|
                      && 0 <= k < |Spellings(alts, fromS[gi].graphemes[i])| ::
      && fromS[gi].name == w.group
      && FindGroup(toS, w.group).Some?
      && i < |FindGroup(toS, w.group).value|
      && w.key == Spellings(alts, fromS[gi].graphemes[i])[k]
      && w.value == FindGroup(toS, w.group).value[i]
  }

  /** Spelling k of source position i is written with destination entry i. */
  lemma {:induction false} GroupWriteAt(group: string, fromG: seq<string>, toG: seq<string>, alts: AlternateMap, i: nat, k: nat)
    requires |fromG| <= |toG| && i < |fromG| && k < |Spellings(alts, fromG[i])|
    ensures Write(group, Spellings(alts, fromG[i])[k], toG[i]) in GroupWrites(group, fromG, toG, alts)
    decreases |fromG|
  {
    var head := PositionWrites(group, Spellings(alts, fromG[0]), toG[0]);
    var tail := GroupWrites(group, fromG[1..], toG[1..], alts);
    assert GroupWrites(group, fromG, toG, alts) == head + tail;
    if i == 0 {
      assert head[k] == Write(group, Spellings(alts, fromG[0])[k], toG[0]);
    } else {
      GroupWriteAt(group, fromG[1..], toG[1..], alts, i - 1, k);
      assert fromG[1..][i - 1] == fromG[i] && toG[1..][i - 1] == toG[i];
    }
  }

  /** Write j of one group is spelling k of some source position i, with destination entry i. */
  lemma {:induction false} GroupWriteOrigin(group: string, fromG: seq<string>, toG: seq<string>, alts: AlternateMap, j: nat)
    returns (i: nat, k: nat)
    requires |fromG| <= |toG| && j < |GroupWrites(group, fromG, toG, alts)|
    ensures i < |fromG| && k < |Spellings(alts, fromG[i])|
    ensures GroupWrites(group, fromG, toG, alts)[j] == Write(group, Spellings(alts, fromG[i])[k], toG[i])
    decreases |fromG|
  {
    var head := PositionWrites(group, Spellings(alts, fromG[0]), toG[0]);
    var tail := GroupWrites(group, fromG[1..], toG[1..], alts);
    assert GroupWrites(group, fromG, toG, alts) == head + tail;
    if j < |head| {
      i, k := 0, j;
    } else {
      var i', k' := GroupWriteOrigin(group, fromG[1..], toG[1..], alts, j - |head|);
      assert fromG[1..][i'] == fromG[i' + 1] && toG[1..][i'] == toG[i' + 1];
      i, k := i' + 1, k';
    }
  }

  /** Write j of the walk is spelling k of position i of some shared source group gi. */
  lemma {:induction false} SchemeWriteOrigin(fromS: Scheme, toS: Scheme, alts: AlternateMap, j: nat)
    returns (gi: nat, i: nat, k: nat)
    requires SchemeWrites(fromS, toS, alts).Success? && j < |SchemeWrites(fromS, toS, alts).value|
    ensures gi < |fromS| && i < |fromS[gi].graphemes| && k < |Spellings(alts, fromS[gi].graphemes[i])|
    ensures FindGroup(toS, fromS[gi].name).Some? && i < |FindGroup(toS, fromS[gi].name).value|
    ensures SchemeWrites(fromS, toS, alts).value[j]
            == Write(fromS[gi].name, Spellings(alts, fromS[gi].graphemes[i])[k], FindGroup(toS, fromS[gi].name).value[i])
    decreases |fromS|
  {
    var g := fromS[0];
    var ws := SchemeWrites(fromS, toS, alts).value;
    var rest := SchemeWrites(fromS[1..], toS, alts).value;
    if FindGroup(toS, g.name).None? {
      gi, i, k := SchemeWriteOrigin(fromS[1..], toS, alts, j);
      assert fromS[1..][gi] == fromS[gi + 1];
      gi := gi + 1;
    } else {
      var toG := FindGroup(toS, g.name).value;
      var gw := GroupWrites(g.name, g.graphemes, toG, alts);
      assert ws == gw + rest;
      if j < |gw| {
        gi := 0;
        i, k := GroupWriteOrigin(g.name, g.graphemes, toG, alts, j);
      } else {
        gi, i, k := SchemeWriteOrigin(fromS[1..], toS, alts, j - |gw|);
        assert fromS[1..][gi] == fromS[gi + 1];
        gi := gi + 1;
      }
    }
  }

  /** Converse of the positional pairing: the walk writes nothing else. */
  lemma WritesComeFromPositions(fromS: Scheme, toS: Scheme, alts: AlternateMap)
    requires SchemeWrites(fromS, toS, alts).Success?
    ensures forall j | 0 <= j < |SchemeWrites(fromS, toS, alts).value| ::
              FromPosition(fromS, toS, alts, SchemeWrites(fromS, toS, alts).value[j])
  {
    forall j | 0 <= j < |SchemeWrites(fromS, toS, alts).value|
      ensures FromPosition(fromS, toS, alts, SchemeWrites(fromS, toS, alts).value[j])
    {
      var gi, i, k := SchemeWriteOrigin(fromS, toS, alts, j);
    }
  }

  /** Every spelling of every position of every shared group is written, paired with destination entry i. */
  lemma {:induction false} PositionsAreWritten(fromS: Scheme, toS: Scheme, alts: AlternateMap, gi: nat, i: nat, k: nat)
    requires SchemeWrites(fromS, toS, alts).Success?
    requires gi < |fromS| && FindGroup(toS, fromS[gi].name).Some?
    requires i < |fromS[gi].graphemes| && k < |Spellings(alts, fromS[gi].graphemes[i])|
    ensures i < |FindGroup(toS, fromS[gi].name).value|
    ensures Write(fromS[gi].name, Spellings(alts, fromS[gi].graphemes[i])[k], FindGroup(toS, fromS[gi].name).value[i])
            in SchemeWrites(fromS, toS, alts).value
    decreases gi
  {
    var g := fromS[0];
    if gi == 0 {
      var toG := FindGroup(toS, g.name).value;
      var gw := GroupWrites(g.name, g.graphemes, toG, alts);
      assert SchemeWrites(fromS, toS, alts).value == gw + SchemeWrites(fromS[1..], toS, alts).value;
      GroupWriteAt(g.name, g.graphemes, toG, alts, i, k);
    } else {
      assert fromS[1..][gi - 1] == fromS[gi];
      PositionsAreWritten(fromS[1..], toS, alts, gi - 1, i, k);
      match FindGroup(toS, g.name)
      case None =>
      case Some(toG) =>
        assert SchemeWrites(fromS, toS, alts).value
               == GroupWrites(g.name, g.graphemes, toG, alts) + SchemeWrites(fromS[1..], toS, alts).value;
    }
  }

  /** Some group of the source, with at least one grapheme, is also a group of the destination. */
  predicate SharesGrapheme(fromS: Scheme, toS: Scheme) {
    exists gi | 0 <= gi < |fromS| :: FindGroup(toS, fromS[gi].name).Some? && |fromS[gi].graphemes| > 0
  }

  /** A successful walk writes something exactly when the schemes share a grapheme position. */
  lemma WritesNonEmptyIffShared(fromS: Scheme, toS: Scheme, alts: AlternateMap)
    requires SchemeWrites(fromS, toS, alts).Success?
    ensures |SchemeWrites(fromS, toS, alts).value| > 0 <==> SharesGrapheme(fromS, toS)
  {
    if |SchemeWrites(fromS, toS, alts).value| > 0 {
      var gi, i, k := SchemeWriteOrigin(fromS, toS, alts, 0);
    }
    if SharesGrapheme(fromS, toS) {
      var gi :| 0 <= gi < |fromS| && FindGroup(toS, fromS[gi].name).Some? && |fromS[gi].graphemes| > 0;
      PositionsAreWritten(fromS, toS, alts, gi, 0, 0);
    }
  }

  /**
   * The conditions under which makeMap returns a map rather than throwing:
   * both schemes registered, no shared group shorter in the destination,
   * at least one shared grapheme, and a destination "virama" group.
   */
  lemma MakeMapSucceedsIff(reg: Registry, from: string, to: string)
    ensures MakeMap(reg, from, to).Success? <==>
              && from in reg.schemes && to in reg.schemes
              && Fits(reg.schemes[from], reg.schemes[to])
              && SharesGrapheme(reg.schemes[from], reg.schemes[to])
              && FindGroup(reg.schemes[to], "virama").Some?
  {
    if from in reg.schemes && to in reg.schemes {
      var alts := AlternatesOf(reg, from);
      SchemeWritesSucceedsIffFits(reg.schemes[from], reg.schemes[to], alts);
      if SchemeWrites(reg.schemes[from], reg.schemes[to], alts).Success? {
        WritesNonEmptyIffShared(reg.schemes[from], reg.schemes[to], alts);
      }
    }
  }

  /** A source group that the destination lacks can be removed without changing the walk. */
  lemma {:induction false} AbsentGroupContributesNothing(fromS: Scheme, toS: Scheme, alts: AlternateMap, gi: nat)
    requires gi < |fromS| && FindGroup(toS, fromS[gi].name).None?
    ensures SchemeWrites(fromS, toS, alts) == SchemeWrites(fromS[..gi] + fromS[gi + 1..], toS, alts)
    decreases gi
  {
    var without := fromS[..gi] + fromS[gi + 1..];
    if gi == 0 {
      assert without == fromS[1..];
    } else {
      AbsentGroupContributesNothing(fromS[1..], toS, alts, gi - 1);
      assert without[0] == fromS[0];
      assert without[1..] == fromS[1..][..gi - 1] + fromS[1..][gi..];
    }
  }

  // ---------------------------------------------------------------------
  // The candidate properties, stated on makeMap
  // ---------------------------------------------------------------------

  function TableOf(m: TMap, t: Table): map<string, string> {
    match t
    case Letters => m.letters
    case Marks => m.marks
    case Consonants => m.consonants
  }

  /** Every write of `key` into table `t` carries value `v`. */
  predicate WritesAgree(ws: seq<Write>, t: Table, key: string, v: string) {
    forall j | 0 <= j < |ws| && WritesKey(t, ws[j], key) :: ws[j].value == v
  }

  /** What a successful makeMap is made of: the tables are the walk's writes, applied. */
  lemma MakeMapParts(reg: Registry, from: string, to: string)
    requires MakeMap(reg, from, to).Success?
    ensures from in reg.schemes && to in reg.schemes
    ensures BuildWrites(reg, from, to).Success?
    ensures BuildWrites(reg, from, to) == SchemeWrites(reg.schemes[from], reg.schemes[to], AlternatesOf(reg, from))
    ensures MakeMap(reg, from, to).value.letters == Fill(Letters, BuildWrites(reg, from, to).value)
    ensures MakeMap(reg, from, to).value.marks == Fill(Marks, BuildWrites(reg, from, to).value)
    ensures MakeMap(reg, from, to).value.consonants == Fill(Consonants, BuildWrites(reg, from, to).value)
    ensures MakeMap(reg, from, to).value.maxTokenLength == MaxKeyLength(BuildWrites(reg, from, to).value)
  {
  }

  lemma TableOfIsFill(reg: Registry, from: string, to: string, t: Table)
    requires MakeMap(reg, from, to).Success?
    ensures BuildWrites(reg, from, to).Success?
    ensures TableOf(MakeMap(reg, from, to).value, t) == Fill(t, BuildWrites(reg, from, to).value)
  {
    MakeMapParts(reg, from, to);
  }

  /**
   * Positional correspondence, membership half: for a group present in both
   * schemes, the source grapheme at index i and each of its alternates is a
   * key of every table its group feeds ("vowel_marks"/"virama" feed marks,
   * everything else letters, "consonants"/"other" also consonants).
   */
  lemma SharedPositionIsKey(reg: Registry, from: string, to: string, gi: nat, i: nat, k: nat, t: Table)
    requires MakeMap(reg, from, to).Success?
    requires from in reg.schemes && gi < |reg.schemes[from]|
    requires to in reg.schemes && FindGroup(reg.schemes[to], reg.schemes[from][gi].name).Some?
    requires i < |reg.schemes[from][gi].graphemes|
    requires k < |Spellings(AlternatesOf(reg, from), reg.schemes[from][gi].graphemes[i])|
    requires Targets(t, reg.schemes[from][gi].name)
    ensures Spellings(AlternatesOf(reg, from), reg.schemes[from][gi].graphemes[i])[k]
            in TableOf(MakeMap(reg, from, to).value, t)
  {
    var g := reg.schemes[from][gi];
    var key := Spellings(AlternatesOf(reg, from), g.graphemes[i])[k];
    MakeMapParts(reg, from, to);
    TableOfIsFill(reg, from, to, t);
    var ws := BuildWrites(reg, from, to).value;
    PositionsAreWritten(reg.schemes[from], reg.schemes[to], AlternatesOf(reg, from), gi, i, k);
    var toG := FindGroup(reg.schemes[to], g.name).value;
    var j :| 0 <= j < |ws| && ws[j] == Write(g.name, key, toG[i]);
    assert WritesKey(t, ws[j], key);
    FillKeys(t, ws, key);
  }

  /** The value half at the level of the walk: the write of a position decides the table entry. */
  lemma WalkPositionValue(ws: seq<Write>, t: Table, group: string, key: string, v: string)
    requires Write(group, key, v) in ws && Targets(t, group)
    requires WritesAgree(ws, t, key, v)
    ensures key in Fill(t, ws) && Fill(t, ws)[key] == v
  {
    var j :| 0 <= j < |ws| && ws[j] == Write(group, key, v);
    assert WritesKey(t, ws[j], key);
    FillAgreeing(t, ws, key, v);
  }

  /**
   * Positional correspondence, value half: the key maps to the destination
   * grapheme at index i, unless some other write of the walk gives that key
   * a different value in the same table (then the later write wins, see
   * FillLastWriteWins).
   */
  lemma SharedPositionValue(reg: Registry, from: string, to: string, gi: nat, i: nat, k: nat, t: Table)
    requires MakeMap(reg, from, to).Success?
    requires from in reg.schemes && gi < |reg.schemes[from]|
    requires to in reg.schemes && FindGroup(reg.schemes[to], reg.schemes[from][gi].name).Some?
    requires i < |reg.schemes[from][gi].graphemes|
    requires k < |Spellings(AlternatesOf(reg, from), reg.schemes[from][gi].graphemes[i])|
    requires Targets(t, reg.schemes[from][gi].name)
    requires i < |FindGroup(reg.schemes[to], reg.schemes[from][gi].name).value|
    requires WritesAgree(BuildWrites(reg, from, to).value, t,
                         Spellings(AlternatesOf(reg, from), reg.schemes[from][gi].graphemes[i])[k],
                         FindGroup(reg.schemes[to], reg.schemes[from][gi].name).value[i])
    ensures var key := Spellings(AlternatesOf(reg, from), reg.schemes[from][gi].graphemes[i])[k];
            var m := TableOf(MakeMap(reg, from, to).value, t);
            key in m && m[key] == FindGroup(reg.schemes[to], reg.schemes[from][gi].name).value[i]
  {
    var fromS, toS, alts := reg.schemes[from], reg.schemes[to], AlternatesOf(reg, from);
    var g := fromS[gi];
    var key := Spellings(alts, g.graphemes[i])[k];
    var v := FindGroup(toS, g.name).value[i];
    TableOfIsFill(reg, from, to, t);
    var ws := BuildWrites(reg, from, to).value;
    PositionsAreWritten(fromS, toS, alts, gi, i, k);
    WalkPositionValue(ws, t, g.name, key, v);
  }

  /** The value half for the k-th alternate of a source grapheme. */
  lemma AlternatePositionValue(reg: Registry, from: string, to: string, gi: nat, i: nat, k: nat, t: Table)
    requires MakeMap(reg, from, to).Success?
    requires from in reg.schemes && gi < |reg.schemes[from]|
    requires to in reg.schemes && FindGroup(reg.schemes[to], reg.schemes[from][gi].name).Some?
    requires i < |reg.schemes[from][gi].graphemes|
    requires i < |FindGroup(reg.schemes[to], reg.schemes[from][gi].name).value|
    requires k < |AlternatesFor(AlternatesOf(reg, from), reg.schemes[from][gi].graphemes[i])|
    requires Targets(t, reg.schemes[from][gi].name)
    requires WritesAgree(BuildWrites(reg, from, to).value, t,
                         AlternatesFor(AlternatesOf(reg, from), reg.schemes[from][gi].graphemes[i])[k],
                         FindGroup(reg.schemes[to], reg.schemes[from][gi].name).value[i])
    ensures var alt := AlternatesFor(AlternatesOf(reg, from), reg.schemes[from][gi].graphemes[i])[k];
            var m := TableOf(MakeMap(reg, from, to).value, t);
            alt in m && m[alt] == FindGroup(reg.schemes[to], reg.schemes[from][gi].name).value[i]
  {
    TableOfIsFill(reg, from, to, t);
    WalkAlternateValue(reg.schemes[from], reg.schemes[to], AlternatesOf(reg, from), gi, i, k, t);
  }

  /** AlternatePositionValue at the level of the walk. */
  lemma WalkAlternateValue(fromS: Scheme, toS: Scheme, alts: AlternateMap, gi: nat, i: nat, k: nat, t: Table)
    requires SchemeWrites(fromS, toS, alts).Success?
    requires gi < |fromS| && FindGroup(toS, fromS[gi].name).Some?
    requires i < |fromS[gi].graphemes| && i < |FindGroup(toS, fromS[gi].name).value|
    requires k < |AlternatesFor(alts, fromS[gi].graphemes[i])|
    requires Targets(t, fromS[gi].name)
    requires WritesAgree(SchemeWrites(fromS, toS, alts).value, t, AlternatesFor(alts, fromS[gi].graphemes[i])[k],
                         FindGroup(toS, fromS[gi].name).value[i])
    ensures var alt := AlternatesFor(alts, fromS[gi].graphemes[i])[k];
            var m := Fill(t, SchemeWrites(fromS, toS, alts).value);
            alt in m && m[alt] == FindGroup(toS, fromS[gi].name).value[i]
  {
    var g := fromS[gi];
    var sp := Spellings(alts, g.graphemes[i]);
    assert sp[k + 1] == AlternatesFor(alts, g.graphemes[i])[k];
    PositionsAreWritten(fromS, toS, alts, gi, i, k + 1);
    WalkPositionValue(SchemeWrites(fromS, toS, alts).value, t, g.name, sp[k + 1], FindGroup(toS, g.name).value[i]);
  }

  /**
   * An alternate spelling gets the same table entry as its canonical
   * grapheme whenever neither is given a different value elsewhere.
   */
  lemma AlternateMapsLikeCanonical(reg: Registry, from: string, to: string, gi: nat, i: nat, k: nat, t: Table)
    requires MakeMap(reg, from, to).Success?
    requires from in reg.schemes && gi < |reg.schemes[from]|
    requires to in reg.schemes && FindGroup(reg.schemes[to], reg.schemes[from][gi].name).Some?
    requires i < |reg.schemes[from][gi].graphemes|
    requires i < |FindGroup(reg.schemes[to], reg.schemes[from][gi].name).value|
    requires k < |AlternatesFor(AlternatesOf(reg, from), reg.schemes[from][gi].graphemes[i])|
    requires Targets(t, reg.schemes[from][gi].name)
    requires WritesAgree(BuildWrites(reg, from, to).value, t, reg.schemes[from][gi].graphemes[i],
                         FindGroup(reg.schemes[to], reg.schemes[from][gi].name).value[i])
    requires WritesAgree(BuildWrites(reg, from, to).value, t,
                         AlternatesFor(AlternatesOf(reg, from), reg.schemes[from][gi].graphemes[i])[k],
                         FindGroup(reg.schemes[to], reg.schemes[from][gi].name).value[i])
    ensures var f := reg.schemes[from][gi].graphemes[i];
            var alt := AlternatesFor(AlternatesOf(reg, from), f)[k];
            var m := TableOf(MakeMap(reg, from, to).value, t);
            f in m && alt in m && m[alt] == m[f]
  {
    assert Spellings(AlternatesOf(reg, from), reg.schemes[from][gi].graphemes[i])[0] == reg.schemes[from][gi].graphemes[i];
    SharedPositionValue(reg, from, to, gi, i, 0, t);
    AlternatePositionValue(reg, from, to, gi, i, k, t);
  }

  /**
   * maxTokenLength is attained: some spelling of some position of a shared
   * group is exactly that long (and by MakeMap's contract none is longer).
   */
  lemma MaxTokenLengthAttained(reg: Registry, from: string, to: string)
    requires MakeMap(reg, from, to).Success?
    ensures from in reg.schemes && to in reg.schemes
    ensures exists w | w in BuildWrites(reg, from, to).value ::
              && FromPosition(reg.schemes[from], reg.schemes[to], AlternatesOf(reg, from), w)
              && |w.key| == MakeMap(reg, from, to).value.maxTokenLength
  {
    var ws := BuildWrites(reg, from, to).value;
    WritesComeFromPositions(reg.schemes[from], reg.schemes[to], AlternatesOf(reg, from));
    var j :| 0 <= j < |ws| && |ws[j].key| == MaxKeyLength(ws);
    assert ws[j] in ws;
  }

  /** Every spelling of a shared position, mark or not, is within maxTokenLength. */
  lemma SpellingsWithinMaxTokenLength(reg: Registry, from: string, to: string)
    requires MakeMap(reg, from, to).Success?
    ensures from in reg.schemes && to in reg.schemes
    ensures forall gi, i, k | 0 <= gi < |reg.schemes[from]|
                              && FindGroup(reg.schemes[to], reg.schemes[from][gi].name).Some?
                              && 0 <= i < |reg.schemes[from][gi].graphemes|
                              && 0 <= k < |Spellings(AlternatesOf(reg, from), reg.schemes[from][gi].graphemes[i])| ::
              |Spellings(AlternatesOf(reg, from), reg.schemes[from][gi].graphemes[i])[k]|
              <= MakeMap(reg, from, to).value.maxTokenLength
  {
    forall gi, i, k | 0 <= gi < |reg.schemes[from]|
                      && FindGroup(reg.schemes[to], reg.schemes[from][gi].name).Some?
                      && 0 <= i < |reg.schemes[from][gi].graphemes|
                      && 0 <= k < |Spellings(AlternatesOf(reg, from), reg.schemes[from][gi].graphemes[i])|
      ensures |Spellings(AlternatesOf(reg, from), reg.schemes[from][gi].graphemes[i])[k]|
              <= MakeMap(reg, from, to).value.maxTokenLength
    {
      PositionsAreWritten(reg.schemes[from], reg.schemes[to], AlternatesOf(reg, from), gi, i, k);
    }
  }
}
