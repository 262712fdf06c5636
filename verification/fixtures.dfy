/**
 * Worked examples on a small slice of Harvard-Kyoto and Devanagari: a few
 * vowels and consonants, one two-letter key ("th") so that tokens can be
 * two characters long, the vowel mark for "i" and the virama.
 */
module Fixtures {
  import opened Wrappers
  import opened Config
  import opened MapBuilder
  import opened RomanSource
  import opened BrahmicSource

  const DevA := "\U{0905}"
  const DevI := "\U{0907}"
  const DevSignI := "\U{093F}"
  const DevVirama := "\U{094D}"
  const DevNa := "\U{0928}"
  const DevRa := "\U{0930}"
  const DevTa := "\U{0924}"
  const DevTha := "\U{0925}"
  const DevVa := "\U{0935}"
  const DevMa := "\U{092E}"

  /**
   * From the slice of Harvard-Kyoto (vowels "a" "i", consonants "n" "r" "t"
   * "th" "v" "m", an empty virama) to the slice of Devanagari, written by
   * hand to match what makeMap builds: vowel marks keyed by the roman vowels
   * after "a", the virama keyed by "".
   */
  const HkToDevanagari: TMap := TMap(
    true, false,
    map["n" := DevNa, "r" := DevRa, "t" := DevTa, "th" := DevTha, "v" := DevVa, "m" := DevMa],
    map["a" := DevA, "i" := DevI, "n" := DevNa, "r" := DevRa, "t" := DevTa, "th" := DevTha, "v" := DevVa, "m" := DevMa],
    map["i" := DevSignI, "" := DevVirama],
    [DevVirama], 2)

  /** The same slices the other way, written by hand likewise: a one-character token bound. */
  const DevanagariToHk: TMap := TMap(
    false, true,
    map[DevNa := "n", DevRa := "r", DevTa := "t", DevTha := "th", DevVa := "v", DevMa := "m"],
    map[DevA := "a", DevI := "i", DevNa := "n", DevRa := "r", DevTa := "t", DevTha := "th", DevVa := "v", DevMa := "m"],
    map[DevSignI := "i", DevVirama := ""],
    [""], 1)

  /** The fixture map and any options without SGML skipping. */
  predicate Fixture(tm: TMap, o: Options) {
    tm == HkToDevanagari && !o.skipSgml
  }

  /** What the examples need to know of the fixture map: its token length and a few lookups. */
  predicate Lookups(tm: TMap, o: Options) {
    && tm.maxTokenLength == 2 && !tm.toRoman && !o.skipSgml
    && "x" !in tm.letters
    && "na" !in tm.letters && "ar" !in tm.letters && "ra" !in tm.letters && "ax" !in tm.letters
    && "xi" !in tm.letters && "it" !in tm.letters && "ti" !in tm.letters
    && "am" !in tm.letters
    && "n" in tm.letters && "r" in tm.letters && "t" in tm.letters && "i" in tm.letters && "a" in tm.letters
    && "m" in tm.letters
    && |tm.virama| > 0 && ViramaText(tm) == DevVirama
    && EmitLetter(tm, false, "n") == Emission(DevNa, true, false)
    && EmitLetter(tm, false, "r") == Emission(DevRa, true, false)
    && EmitLetter(tm, false, "t") == Emission(DevTa, true, false)
    && EmitLetter(tm, false, "i") == Emission(DevI, false, false)
    && EmitLetter(tm, false, "m") == Emission(DevMa, true, false)
    && EmitLetter(tm, true, "a") == Emission("", false, false)
    && EmitLetter(tm, true, "i") == Emission(DevSignI, false, false)
  }

  lemma FixtureLookups(tm: TMap, o: Options)
    requires Fixture(tm, o)
    ensures Lookups(tm, o)
  {
  }

  /** The scan on a one-character token: the two-letter prefix, if any, is not a key. */
  lemma OneCharScan(rest: string, tm: TMap, o: Options, st: RomanState)
    requires tm.maxTokenLength == 2 && !o.skipSgml
    requires |rest| >= 1 && rest[0] != '#' && !st.skippingSgml && !st.toggledTrans
    requires |rest| >= 2 ==> rest[..2] !in tm.letters
    ensures |rest| >= 2 ==> ScanFrom(rest, tm, o, st, 0) == ScanFrom(rest, tm, o, st, 1)
    ensures |rest| == 1 ==> ScanFrom(rest, tm, o, st, 0) == ScanFrom([rest[0]], tm, o, st, 1)
  {
    if |rest| >= 2 {
      var token := rest[..2];
      assert token[0] == rest[0];
      assert SgmlAfter(o, false, token) == false;
    } else {
      assert rest == [rest[0]];
    }
  }

  /** One step of the run on a key of one character. */
  lemma LetterStep(rest: string, tm: TMap, o: Options, had: bool, text: string, had': bool)
    requires tm.maxTokenLength == 2 && !o.skipSgml
    requires |rest| >= 1 && rest[0] != '#'
    requires |rest| >= 2 ==> rest[..2] !in tm.letters
    requires [rest[0]] in tm.letters
    requires EmitLetter(tm, had, [rest[0]]) == Emission(text, had', false)
    ensures RomanRun(rest, tm, o, RomanState(had, false, false))
            == Join(Output(text, false), RomanRun(rest[1..], tm, o, RomanState(had', false, false)))
  {
    var st := RomanState(had, false, false);
    OneCharScan(rest, tm, o, st);
    assert rest[..1] == [rest[0]];
    assert ScanFrom(rest, tm, o, st, 1) == Step(1, text, RomanState(had', false, false), false);
    RunUnfolds(rest, tm, o, st);
  }

  /** One step of the run on a character that is no key, with no consonant pending. */
  lemma LiteralStep(rest: string, tm: TMap, o: Options)
    requires tm.maxTokenLength == 2 && !o.skipSgml
    requires |rest| >= 1 && rest[0] != '#'
    requires |rest| >= 2 ==> rest[..2] !in tm.letters
    requires [rest[0]] !in tm.letters
    ensures RomanRun(rest, tm, o, Initial) == Join(Output([rest[0]], false), RomanRun(rest[1..], tm, o, Initial))
  {
    OneCharScan(rest, tm, o, Initial);
    assert rest[..1] == [rest[0]];
    assert ScanFrom(rest, tm, o, Initial, 1) == Step(1, [rest[0]], Initial, false);
    RunUnfolds(rest, tm, o, Initial);
  }

  /** After a consonant "a" is absorbed and "i" becomes its mark; an unknown letter is copied. */
  lemma NaraxitiExample(tm: TMap, o: Options)
    requires Fixture(tm, o)
    ensures TransliterateRoman("naraxiti", tm, o) == Success(DevNa + DevRa + "x" + DevI + DevTa + DevSignI)
  {
    FixtureLookups(tm, o);
    NaraxitiRun(tm, o);
  }

  lemma NaraxitiRun(tm: TMap, o: Options)
    requires Lookups(tm, o)
    ensures RomanRun("naraxiti", tm, o, Initial) == Output(DevNa + DevRa + "x" + DevI + DevTa + DevSignI, false)
  {
    NaraxitiHead(tm, o);
    NaraxitiTail(tm, o);
    var nr := DevNa + DevRa;
    ConcatAssociates(nr, "x", DevI);
    ConcatAssociates(nr, "x" + DevI, DevTa);
    ConcatAssociates(nr, "x" + DevI + DevTa, DevSignI);
    assert nr + ("x" + DevI + DevTa + DevSignI) == DevNa + DevRa + "x" + DevI + DevTa + DevSignI;
  }

  lemma NaraxitiHead(tm: TMap, o: Options)
    requires Lookups(tm, o)
    ensures RomanRun("naraxiti", tm, o, Initial) == Join(Output(DevNa + DevRa, false), RomanRun("xiti", tm, o, Initial))
  {
    var r4 := RomanRun("xiti", tm, o, Initial);
    RaxitiStep(tm, o);
    NaraxitiStep(tm, o);
    ConcatAssociates(DevNa, DevRa, r4.text);
  }

  /**
   * A consonant followed by "a" writes only the consonant: the "a" is its
   * inherent vowel. Neither two-letter prefix involved may be a key.
   */
  lemma ConsonantThenA(c: char, rest: string, tm: TMap, o: Options, text: string)
    requires tm.maxTokenLength == 2 && !o.skipSgml && c != '#'
    requires [c] in tm.letters && [c, 'a'] !in tm.letters
    requires EmitLetter(tm, false, [c]) == Emission(text, true, false)
    requires "a" in tm.letters && EmitLetter(tm, true, "a") == Emission("", false, false)
    requires 0 < |rest| ==> rest[0] != '#' && ['a', rest[0]] !in tm.letters
    ensures RomanRun([c, 'a'] + rest, tm, o, Initial) == Join(Output(text, false), RomanRun(rest, tm, o, Initial))
  {
    var s := [c, 'a'] + rest;
    var s1 := ['a'] + rest;
    assert s[0] == c && s[..2] == [c, 'a'] && s[1..] == s1;
    assert s1[0] == 'a' && s1[1..] == rest;
    assert 2 <= |s1| ==> s1[..2] == ['a', rest[0]];
    LetterStep(s1, tm, o, true, "", false);
    var r := RomanRun(rest, tm, o, Initial);
    assert RomanRun(s1, tm, o, RomanState(true, false, false)) == Output(r.text, r.usesVirama);
    LetterStep(s, tm, o, false, text, true);
  }

  /** "ra" before "xiti". */
  lemma RaxitiStep(tm: TMap, o: Options)
    requires Lookups(tm, o)
    ensures RomanRun("raxiti", tm, o, Initial) == Join(Output(DevRa, false), RomanRun("xiti", tm, o, Initial))
  {
    assert ['r', 'a'] + "xiti" == "raxiti";
    ConsonantThenA('r', "xiti", tm, o, DevRa);
  }

  /** "na" before "raxiti". */
  lemma NaraxitiStep(tm: TMap, o: Options)
    requires Lookups(tm, o)
    ensures RomanRun("naraxiti", tm, o, Initial) == Join(Output(DevNa, false), RomanRun("raxiti", tm, o, Initial))
  {
    assert ['n', 'a'] + "raxiti" == "naraxiti";
    ConsonantThenA('n', "raxiti", tm, o, DevNa);
  }

  lemma NaraxitiTail(tm: TMap, o: Options)
    requires Lookups(tm, o)
    ensures RomanRun("xiti", tm, o, Initial) == Output("x" + DevI + DevTa + DevSignI, false)
  {
    var r0 := RomanRun("", tm, o, Initial);
    assert r0 == Output("", false);
    assert ["i"[0]] == "i" && "i"[1..] == "";
    LetterStep("i", tm, o, true, DevSignI, false);
    var r1 := RomanRun("i", tm, o, RomanState(true, false, false));
    assert r1 == Output(DevSignI, false);
    assert "ti"[..2] == "ti" && ["ti"[0]] == "t" && "ti"[1..] == "i";
    LetterStep("ti", tm, o, false, DevTa, true);
    var r2 := RomanRun("ti", tm, o, Initial);
    assert r2 == Output(DevTa + DevSignI, false);
    assert "iti"[..2] == "it" && ["iti"[0]] == "i" && "iti"[1..] == "ti";
    LetterStep("iti", tm, o, false, DevI, false);
    var r3 := RomanRun("iti", tm, o, Initial);
    assert r3 == Output(DevI + (DevTa + DevSignI), false);
    assert "xiti"[..2] == "xi" && ["xiti"[0]] == "x" && "xiti"[1..] == "iti";
    LiteralStep("xiti", tm, o);
    ConcatAssociates(DevI, DevTa, DevSignI);
    ConcatAssociates("x", DevI, DevTa + DevSignI);
    ConcatAssociates("x" + DevI, DevTa, DevSignI);
  }

  /**
   * A final consonant is closed with a virama unless `syncope` is set:
   * "naram" ends in म् normally and in म with syncope.
   */
  lemma NaramExample(tm: TMap, o: Options)
    requires Fixture(tm, o)
    ensures TransliterateRoman("naram", tm, o)
            == Success(DevNa + DevRa + DevMa + (if o.syncope then "" else DevVirama))
  {
    FixtureLookups(tm, o);
    NaramRun(tm, o);
  }

  lemma NaramRun(tm: TMap, o: Options)
    requires Lookups(tm, o)
    ensures RomanRun("naram", tm, o, Initial)
            == Output(DevNa + DevRa + DevMa + (if o.syncope then "" else DevVirama), !o.syncope)
  {
    var fin := if o.syncope then "" else DevVirama;
    assert RomanRun("", tm, o, RomanState(true, false, false)) == Output(fin, !o.syncope);
    assert ["m"[0]] == "m" && "m"[1..] == "";
    LetterStep("m", tm, o, false, DevMa, true);
    assert RomanRun("m", tm, o, Initial) == Output(DevMa + fin, !o.syncope);
    assert ['r', 'a'] + "m" == "ram";
    ConsonantThenA('r', "m", tm, o, DevRa);
    assert RomanRun("ram", tm, o, Initial) == Output(DevRa + (DevMa + fin), !o.syncope);
    assert ['n', 'a'] + "ram" == "naram";
    ConsonantThenA('n', "ram", tm, o, DevNa);
    ConcatAssociates(DevRa, DevMa, fin);
    ConcatAssociates(DevNa, DevRa + DevMa, fin);
    ConcatAssociates(DevNa, DevRa, DevMa);
  }

  // ---------------------------------------------------------------------
  // From Devanagari
  // ---------------------------------------------------------------------

  /**
   * What the Brahmic example needs to know of the reverse map: ta, va and
   * ma are consonants reading "t", "v" and "m", and vi is a virama that
   * writes nothing.
   */
  predicate Readings(tm: TMap, ta: char, va: char, ma: char, vi: char) {
    && tm.toRoman && vi != '#' && IsMark(tm, vi) && tm.marks[[vi]] == ""
    && ta != '#' && !IsMark(tm, ta) && IsRomanConsonant(tm, ta) && LetterImage(tm, ta) == "t"
    && va != '#' && !IsMark(tm, va) && IsRomanConsonant(tm, va) && LetterImage(tm, va) == "v"
    && ma != '#' && !IsMark(tm, ma) && IsRomanConsonant(tm, ma) && LetterImage(tm, ma) == "m"
  }

  lemma FixtureReadings(tm: TMap)
    requires tm == DevanagariToHk
    ensures Readings(tm, '\U{0924}', '\U{0935}', '\U{092E}', '\U{094D}')
  {
  }

  /** A consonant writes any "a" still owed, then its letter, and owes an "a" itself. */
  lemma ConsonantReads(c: char, rest: string, tm: TMap, had: bool, img: string)
    requires c != '#' && !IsMark(tm, c) && IsRomanConsonant(tm, c) && LetterImage(tm, c) == img
    ensures BrahmicRun([c] + rest, tm, BrahmicState(false, false, had))
            == PendingA(had) + img + BrahmicRun(rest, tm, BrahmicState(false, false, true))
  {
    Unfold(c, rest, tm, BrahmicState(false, false, had));
  }

  /** The virama writes nothing and cancels the owed "a". */
  lemma ViramaReads(c: char, rest: string, tm: TMap, had: bool)
    requires c != '#' && IsMark(tm, c) && tm.marks[[c]] == ""
    ensures BrahmicRun([c] + rest, tm, BrahmicState(false, false, had))
            == BrahmicRun(rest, tm, BrahmicState(false, false, false))
  {
    Unfold(c, rest, tm, BrahmicState(false, false, had));
  }

  /**
   * Towards Harvard-Kyoto each consonant gets its inherent "a" unless a
   * virama follows: "तत्त्वम्" becomes "tattvam".
   */
  lemma TattvamExample(tm: TMap)
    requires tm == DevanagariToHk
    ensures TransliterateBrahmic(DevTa + DevTa + DevVirama + DevTa + DevVirama + DevVa + DevMa + DevVirama, tm)
            == "tattvam"
  {
    var ta, vi, va, ma := '\U{0924}', '\U{094D}', '\U{0935}', '\U{092E}';
    FixtureReadings(tm);
    TattvamRun(tm, ta, va, ma, vi);
    assert DevTa + DevTa + DevVirama + DevTa + DevVirama + DevVa + DevMa + DevVirama
           == [ta, ta, vi, ta, vi, va, ma, vi];
  }

  lemma TattvamRun(tm: TMap, ta: char, va: char, ma: char, vi: char)
    requires Readings(tm, ta, va, ma, vi)
    ensures BrahmicRun([ta, ta, vi, ta, vi, va, ma, vi], tm, Start) == "tattvam"
  {
    TtvamRun(tm, ta, va, ma, vi);
    ConsonantReads(ta, [ta, vi, ta, vi, va, ma, vi], tm, false, "t");
    assert [ta] + [ta, vi, ta, vi, va, ma, vi] == [ta, ta, vi, ta, vi, va, ma, vi];
  }

  /** After a first consonant, "त्त्वम्" reads "attvam": the owed "a" comes first. */
  lemma TtvamRun(tm: TMap, ta: char, va: char, ma: char, vi: char)
    requires Readings(tm, ta, va, ma, vi)
    ensures BrahmicRun([ta, vi, ta, vi, va, ma, vi], tm, BrahmicState(false, false, true)) == "attvam"
  {
    ViramaTvamRun(tm, ta, va, ma, vi);
    ConsonantReads(ta, [vi, ta, vi, va, ma, vi], tm, true, "t");
    assert [ta] + [vi, ta, vi, va, ma, vi] == [ta, vi, ta, vi, va, ma, vi];
  }

  /** A virama before "त्वम्" only cancels the owed "a". */
  lemma ViramaTvamRun(tm: TMap, ta: char, va: char, ma: char, vi: char)
    requires Readings(tm, ta, va, ma, vi)
    ensures BrahmicRun([vi, ta, vi, va, ma, vi], tm, BrahmicState(false, false, true)) == "tvam"
  {
    TvamRun(tm, ta, va, ma, vi);
    ViramaReads(vi, [ta, vi, va, ma, vi], tm, true);
    assert [vi] + [ta, vi, va, ma, vi] == [vi, ta, vi, va, ma, vi];
  }

  /** The tail "त्वम्" of the example reads "tvam". */
  lemma TvamRun(tm: TMap, ta: char, va: char, ma: char, vi: char)
    requires Readings(tm, ta, va, ma, vi)
    ensures BrahmicRun([ta, vi, va, ma, vi], tm, Start) == "tvam"
  {
    VamRun(tm, ta, va, ma, vi);
    ViramaReads(vi, [va, ma, vi], tm, true);
    assert [vi] + [va, ma, vi] == [vi, va, ma, vi];
    ConsonantReads(ta, [vi, va, ma, vi], tm, false, "t");
    assert [ta] + [vi, va, ma, vi] == [ta, vi, va, ma, vi];
  }

  /** The last syllable "वम्" reads "vam": the final virama cancels the owed "a". */
  lemma VamRun(tm: TMap, ta: char, va: char, ma: char, vi: char)
    requires Readings(tm, ta, va, ma, vi)
    ensures BrahmicRun([va, ma, vi], tm, Start) == "vam"
  {
    ViramaReads(vi, [], tm, true);
    assert [vi] + [] == [vi];
    ConsonantReads(ma, [vi], tm, true, "m");
    assert [ma] + [vi] == [ma, vi];
    ConsonantReads(va, [ma, vi], tm, false, "v");
    assert [va] + [ma, vi] == [va, ma, vi];
  }
}
