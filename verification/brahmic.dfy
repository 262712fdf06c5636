/**
 * The Brahmic-source transliterator (`transliterateBrahmic`).
 *
 * The input is read one character at a time and each character is looked up
 * on its own: first in `marks`, then in `letters`. A consonant of a Brahmic
 * script carries an inherent "a"; towards a roman script that "a" is written
 * out after the consonant unless a vowel mark (or virama) follows and takes
 * its place. "##" switches transliteration off and on again; a single '#'
 * is held back and written only before the next character that is not a mark.
 */
module BrahmicSource {
  import opened MapBuilder

  /** `skippingTrans`, `danglingHash`, `hadRomanConsonant`. */
  datatype BrahmicState = BrahmicState(skippingTrans: bool, danglingHash: bool, hadRomanConsonant: bool)

  const Start: BrahmicState := BrahmicState(false, false, false)

  /** The text appended for one character and the state after it. */
  datatype Emitted = Emitted(text: string, state: BrahmicState)

  predicate IsMark(tm: TMap, c: char) {
    [c] in tm.marks
  }

  /** `letters[L] != null && letters[L] != ""`: an empty entry counts as missing. */
  predicate HasLetter(tm: TMap, c: char) {
    [c] in tm.letters && tm.letters[[c]] != ""
  }

  /** A character after which a roman destination owes an "a". */
  predicate IsRomanConsonant(tm: TMap, c: char) {
    tm.toRoman && !IsMark(tm, c) && HasLetter(tm, c) && [c] in tm.consonants
  }

  /** The letter for a character that is not a mark, or the character itself. */
  function LetterImage(tm: TMap, c: char): string {
    if HasLetter(tm, c) then tm.letters[[c]] else [c]
  }

  /** The text a character stands for outside skip regions, apart from any inherent "a". */
  function CharImage(tm: TMap, c: char): string {
    if IsMark(tm, c) then tm.marks[[c]] else LetterImage(tm, c)
  }

  /** The "a" still owed for a preceding consonant. */
  function PendingA(had: bool): string {
    if had then "a" else ""
  }

  /** One pass of the `for` loop over the input characters. */
  function BrahmicStep(tm: TMap, st: BrahmicState, c: char): (r: Emitted)
    ensures c != '#' ==> r.state.skippingTrans == st.skippingTrans
    ensures (st.skippingTrans ==> !st.hadRomanConsonant) ==> (r.state.skippingTrans ==> !r.state.hadRomanConsonant)
    ensures (st.hadRomanConsonant ==> tm.toRoman) ==> (r.state.hadRomanConsonant ==> tm.toRoman)
    ensures st.skippingTrans && c != '#' ==> r == Emitted([c], st)
  {
    if c == '#' then
      var toggled :=
        if st.danglingHash then st.(skippingTrans := !st.skippingTrans, danglingHash := false)
        else st.(danglingHash := true);
      Emitted(PendingA(st.hadRomanConsonant), toggled.(hadRomanConsonant := false))
    else if st.skippingTrans then Emitted([c], st)
    else if IsMark(tm, c) then Emitted(tm.marks[[c]], st.(hadRomanConsonant := false))
    else
      Emitted(
        (if st.danglingHash then "#" else "") + PendingA(st.hadRomanConsonant) + LetterImage(tm, c),
        st.(danglingHash := false, hadRomanConsonant := IsRomanConsonant(tm, c)))
  }

  /** The loop from state `st` over `data`, then the closing "a" for a final consonant. */
  function BrahmicRun(data: string, tm: TMap, st: BrahmicState): string
    decreases |data|
  {
    if |data| == 0 then PendingA(st.hadRomanConsonant)
    else
      var e := BrahmicStep(tm, st, data[0]);
      e.text + BrahmicRun(data[1..], tm, e.state)
  }

  /** `transliterateBrahmic(data, map, options)`; the options are not consulted. */
  function TransliterateBrahmic(data: string, tm: TMap): string {
    BrahmicRun(data, tm, Start)
  }

  // ---------------------------------------------------------------------
  // Reference readings outside skip regions
  // ---------------------------------------------------------------------

  /** Character-by-character replacement: what a Brahmic destination receives. */
  function MapChars(data: string, tm: TMap): string {
    if |data| == 0 then "" else CharImage(tm, data[0]) + MapChars(data[1..], tm)
  }

  /** Whether a consonant at the front of `rest`'s predecessor is followed by something other than a mark. */
  predicate NoMarkNext(tm: TMap, rest: string) {
    |rest| == 0 || !IsMark(tm, rest[0])
  }

  /**
   * Character-by-character replacement in which every roman consonant not
   * followed by a mark also writes out its inherent "a".
   */
  function RomanReading(data: string, tm: TMap): string {
    if |data| == 0 then ""
    else
      CharImage(tm, data[0])
      + PendingA(IsRomanConsonant(tm, data[0]) && NoMarkNext(tm, data[1..]))
      + RomanReading(data[1..], tm)
  }

  predicate NoHash(data: string) {
    forall i | 0 <= i < |data| :: data[i] != '#'
  }

  /** Outside skip regions, with no '#', a Brahmic destination is the per-character replacement. */
  lemma {:induction false} BrahmicDestinationMapsChars(data: string, tm: TMap)
    requires !tm.toRoman && NoHash(data)
    ensures TransliterateBrahmic(data, tm) == MapChars(data, tm)
  {
    PlainRunMapsChars(data, tm);
  }

  lemma {:induction false} PlainRunMapsChars(data: string, tm: TMap)
    requires !tm.toRoman && NoHash(data)
    ensures BrahmicRun(data, tm, Start) == MapChars(data, tm)
    decreases |data|
  {
    if |data| > 0 {
      var c := data[0];
      assert BrahmicStep(tm, Start, c) == Emitted(CharImage(tm, c), Start);
      assert NoHash(data[1..]) by {
        forall i | 0 <= i < |data[1..]| ensures data[1..][i] != '#' {
          assert data[1..][i] == data[i + 1];
        }
      }
      PlainRunMapsChars(data[1..], tm);
    }
  }

  /**
   * Towards a roman destination, with no '#', the output is the per-character
   * replacement with the inherent "a" written after every consonant that no
   * mark follows (a mark takes the place of the inherent vowel).
   */
  lemma RomanDestinationAddsInherentA(data: string, tm: TMap)
    requires tm.toRoman && NoHash(data)
    ensures TransliterateBrahmic(data, tm) == RomanReading(data, tm)
  {
    PlainRunReadsRoman(data, tm, false);
  }

  lemma {:induction false} PlainRunReadsRoman(data: string, tm: TMap, had: bool)
    requires tm.toRoman && NoHash(data)
    ensures BrahmicRun(data, tm, BrahmicState(false, false, had))
            == PendingA(had && NoMarkNext(tm, data)) + RomanReading(data, tm)
    decreases |data|
  {
    if |data| > 0 {
      var rest := data[1..];
      assert NoHash(rest) by {
        forall i | 0 <= i < |rest| ensures rest[i] != '#' {
          assert rest[i] == data[i + 1];
        }
      }
      PlainRunReadsRoman(rest, tm, IsRomanConsonant(tm, data[0]));
      if IsMark(tm, data[0]) {
        MarkReadsRoman(data, tm, had);
      } else {
        LetterReadsRoman(data, tm, had);
      }
    }
  }

  /** One step of PlainRunReadsRoman on a mark: it absorbs the pending "a". */
  lemma MarkReadsRoman(data: string, tm: TMap, had: bool)
    requires 0 < |data| && data[0] != '#' && IsMark(tm, data[0])
    requires BrahmicRun(data[1..], tm, BrahmicState(false, false, false)) == RomanReading(data[1..], tm)
    ensures BrahmicRun(data, tm, BrahmicState(false, false, had))
            == PendingA(had && NoMarkNext(tm, data)) + RomanReading(data, tm)
  {
    MarkRuns(data, tm, had);
    MarkReads(data, tm);
  }

  /** The run's first step on a mark outside skip regions. */
  lemma MarkRuns(data: string, tm: TMap, had: bool)
    requires 0 < |data| && data[0] != '#' && IsMark(tm, data[0])
    ensures BrahmicRun(data, tm, BrahmicState(false, false, had))
            == tm.marks[[data[0]]] + BrahmicRun(data[1..], tm, BrahmicState(false, false, false))
  {
    assert BrahmicStep(tm, BrahmicState(false, false, had), data[0])
           == Emitted(tm.marks[[data[0]]], BrahmicState(false, false, false));
  }

  /** The reference reading's first step on a mark: a mark owes no "a". */
  lemma MarkReads(data: string, tm: TMap)
    requires 0 < |data| && IsMark(tm, data[0])
    ensures RomanReading(data, tm) == tm.marks[[data[0]]] + RomanReading(data[1..], tm)
  {
    assert RomanReading(data, tm) == tm.marks[[data[0]]] + "" + RomanReading(data[1..], tm);
  }

  /** One step of PlainRunReadsRoman on a character that is not a mark. */
  lemma LetterReadsRoman(data: string, tm: TMap, had: bool)
    requires 0 < |data| && data[0] != '#' && !IsMark(tm, data[0])
    requires var had' := IsRomanConsonant(tm, data[0]);
             BrahmicRun(data[1..], tm, BrahmicState(false, false, had'))
             == PendingA(had' && NoMarkNext(tm, data[1..])) + RomanReading(data[1..], tm)
    ensures BrahmicRun(data, tm, BrahmicState(false, false, had))
            == PendingA(had && NoMarkNext(tm, data)) + RomanReading(data, tm)
  {
    var c := data[0];
    var had' := IsRomanConsonant(tm, c);
    LetterRuns(data, tm, had);
    LetterReads(data, tm);
    Regroup(PendingA(had), LetterImage(tm, c), PendingA(had' && NoMarkNext(tm, data[1..])), RomanReading(data[1..], tm));
  }

  /** The run's first step on a letter outside skip regions with no hash pending. */
  lemma LetterRuns(data: string, tm: TMap, had: bool)
    requires 0 < |data| && data[0] != '#' && !IsMark(tm, data[0])
    ensures BrahmicRun(data, tm, BrahmicState(false, false, had))
            == (PendingA(had) + LetterImage(tm, data[0]))
               + BrahmicRun(data[1..], tm, BrahmicState(false, false, IsRomanConsonant(tm, data[0])))
  {
    var c := data[0];
    assert BrahmicStep(tm, BrahmicState(false, false, had), c)
           == Emitted(PendingA(had) + LetterImage(tm, c), BrahmicState(false, false, IsRomanConsonant(tm, c)));
  }

  /** The reference reading's first step on a letter. */
  lemma LetterReads(data: string, tm: TMap)
    requires 0 < |data| && !IsMark(tm, data[0])
    ensures RomanReading(data, tm)
            == LetterImage(tm, data[0])
               + PendingA(IsRomanConsonant(tm, data[0]) && NoMarkNext(tm, data[1..]))
               + RomanReading(data[1..], tm)
  {
  }

  lemma Regroup(p: string, x: string, y: string, z: string)
    ensures (p + x) + (y + z) == p + (x + y + z)
  {
  }

  // ---------------------------------------------------------------------
  // '#' handling
  // ---------------------------------------------------------------------

  /** "##" flips transliteration, writes out a pending "a", and leaves no hash pending. */
  lemma DoubleHashToggles(rest: string, tm: TMap, st: BrahmicState)
    requires !st.danglingHash
    ensures BrahmicRun("##" + rest, tm, st)
            == PendingA(st.hadRomanConsonant)
               + BrahmicRun(rest, tm, BrahmicState(!st.skippingTrans, false, false))
  {
    var s1 := BrahmicStep(tm, st, '#').state;
    assert ("##" + rest)[1..] == "#" + rest;
    assert ("#" + rest)[1..] == rest;
    assert BrahmicRun("#" + rest, tm, s1) == BrahmicRun(rest, tm, BrahmicState(!st.skippingTrans, false, false));
  }

  /** Inside a toggled region, text without '#' is copied verbatim. */
  lemma {:induction false} SkippedRegionVerbatim(data: string, tm: TMap, st: BrahmicState)
    requires st.skippingTrans && !st.hadRomanConsonant && NoHash(data)
    ensures BrahmicRun(data, tm, st) == data
    decreases |data|
  {
    if |data| > 0 {
      assert NoHash(data[1..]) by {
        forall i | 0 <= i < |data[1..]| ensures data[1..][i] != '#' {
          assert data[1..][i] == data[i + 1];
        }
      }
      SkippedRegionVerbatim(data[1..], tm, st);
      assert data == [data[0]] + data[1..];
    }
  }

  /** A single '#' outside skip regions reappears in front of the next character that is not a mark. */
  lemma LoneHashReappears(c: char, rest: string, tm: TMap, st: BrahmicState)
    requires !st.skippingTrans && !st.danglingHash && c != '#' && !IsMark(tm, c)
    ensures BrahmicRun(['#', c] + rest, tm, st)
            == PendingA(st.hadRomanConsonant) + ("#" + LetterImage(tm, c)
               + BrahmicRun(rest, tm, BrahmicState(false, false, IsRomanConsonant(tm, c))))
  {
    var s1 := BrahmicState(false, true, false);
    assert BrahmicStep(tm, st, '#') == Emitted(PendingA(st.hadRomanConsonant), s1);
    HashThen(c, rest, tm, st);
    assert BrahmicStep(tm, s1, c) == Emitted("#" + LetterImage(tm, c), BrahmicState(false, false, IsRomanConsonant(tm, c)));
    Unfold(c, rest, tm, s1);
  }

  /** A mark does not release a held-back '#': it stays pending past the mark. */
  lemma HashWaitsPastMark(c: char, rest: string, tm: TMap, st: BrahmicState)
    requires !st.skippingTrans && !st.danglingHash && c != '#' && IsMark(tm, c)
    ensures BrahmicRun(['#', c] + rest, tm, st)
            == PendingA(st.hadRomanConsonant) + (tm.marks[[c]]
               + BrahmicRun(rest, tm, BrahmicState(false, true, false)))
  {
    var s1 := BrahmicState(false, true, false);
    assert BrahmicStep(tm, st, '#') == Emitted(PendingA(st.hadRomanConsonant), s1);
    HashThen(c, rest, tm, st);
    assert BrahmicStep(tm, s1, c) == Emitted(tm.marks[[c]], s1);
    Unfold(c, rest, tm, s1);
  }

  lemma HashThen(c: char, rest: string, tm: TMap, st: BrahmicState)
    ensures var e := BrahmicStep(tm, st, '#');
            BrahmicRun(['#', c] + rest, tm, st) == e.text + BrahmicRun([c] + rest, tm, e.state)
  {
    assert (['#', c] + rest)[0] == '#';
    assert (['#', c] + rest)[1..] == [c] + rest;
  }

  lemma Unfold(c: char, rest: string, tm: TMap, st: BrahmicState)
    ensures var e := BrahmicStep(tm, st, c);
            BrahmicRun([c] + rest, tm, st) == e.text + BrahmicRun(rest, tm, e.state)
  {
    assert ([c] + rest)[0] == c;
    assert ([c] + rest)[1..] == rest;
  }

  /** A '#' at the very end changes nothing: a lone one is dropped, and a pending "a" is written either way. */
  lemma {:induction false} TrailingHashDropped(data: string, tm: TMap, st: BrahmicState)
    ensures BrahmicRun(data + "#", tm, st) == BrahmicRun(data, tm, st)
    decreases |data|
  {
    if |data| == 0 {
      assert data + "#" == "#";
      assert BrahmicRun("#", tm, st) == PendingA(st.hadRomanConsonant) + BrahmicRun("", tm, BrahmicStep(tm, st, '#').state);
    } else {
      assert (data + "#")[0] == data[0];
      assert (data + "#")[1..] == data[1..] + "#";
      TrailingHashDropped(data[1..], tm, BrahmicStep(tm, st, data[0]).state);
    }
  }
}
