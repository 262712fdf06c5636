/**
 * The roman-source transliterator (`transliterateRoman`).
 *
 * The source keeps a token buffer holding the next `maxTokenLength`
 * characters of the remaining input and, for j = 0 .. maxTokenLength-1,
 * looks at the buffer's prefix of length maxTokenLength-j. Every prefix
 * examined may change the SGML flag; a "##" prefix flips the toggle; the
 * first prefix found in `letters` (outside skip regions) is emitted and
 * dropped from the buffer; when none is found the first character is copied.
 *
 * `ScanFrom` is that inner loop and `RomanRun` the outer one, over the
 * remaining input (the buffer is always the first min(maxTokenLength, |rest|)
 * characters of it, which `TransliterateRomanBuffered` establishes).
 * The reference semantics is `Tokenize` (greedy longest match) followed by
 * `Render` (the inherent-vowel rules), and `PlainRunIsRender` proves the loop
 * equal to it on text where no toggle or SGML region begins; the lemmas on
 * skip regions cover the rest.
 */
module RomanSource {
  import opened Wrappers
  import opened Config
  import opened MapBuilder

  /** `hadConsonant`, `skippingSGML`, `toggledTrans`. */
  datatype RomanState = RomanState(hadConsonant: bool, skippingSgml: bool, toggledTrans: bool)

  const Initial: RomanState := RomanState(false, false, false)

  /**
   * Output text together with whether it needed `virama[0]`; the source
   * throws when it needs that entry of an empty virama group, so the text
   * stands in "" for it and the flag records the need.
   */
  datatype Output = Output(text: string, usesVirama: bool)

  function Join(a: Output, b: Output): Output {
    Output(a.text + b.text, a.usesVirama || b.usesVirama)
  }

  /** One pass of the `for j` loop: characters dropped from the buffer, text appended, state after. */
  datatype Step = Step(consumed: nat, emitted: string, state: RomanState, usesVirama: bool)

  /** What matching one `letters` key appends, and the new `hadConsonant`. */
  datatype Emission = Emission(text: string, hadConsonant: bool, usesVirama: bool)

  /** `virama[0]`; "" stands in for it when the group is empty (see Output). */
  function ViramaText(tm: TMap): string {
    if |tm.virama| > 0 then tm.virama[0] else ""
  }

  /** Whether an unmatched character or the end of input is preceded by a virama. */
  predicate ClosesWithVirama(o: Options, had: bool) {
    had && !o.syncope
  }

  /**
   * The text appended for a matched token. Towards a roman scheme the letter
   * is copied and `hadConsonant` is left alone. Towards a Brahmic scheme,
   * right after a consonant a vowel appears as its mark, "a" as nothing (the
   * inherent vowel), and anything else after a virama; `hadConsonant` then
   * records whether the token is a consonant.
   */
  function EmitLetter(tm: TMap, had: bool, token: string): Emission
    requires token in tm.letters
  {
    if tm.toRoman then Emission(tm.letters[token], had, false)
    else
      var nowConsonant := token in tm.consonants;
      if !had then Emission(tm.letters[token], nowConsonant, false)
      else if token in tm.marks then Emission(tm.marks[token], nowConsonant, false)
      else if token != "a" then Emission(ViramaText(tm) + tm.letters[token], nowConsonant, true)
      else Emission("", nowConsonant, false)
  }

  /** What the end of input appends. */
  function Finish(tm: TMap, o: Options, had: bool): Output {
    if ClosesWithVirama(o, had) then Output(ViramaText(tm), true) else Output("", false)
  }

  /** The step that copies one unmatched character, closing a pending consonant first. */
  function Fallback(tm: TMap, o: Options, st: RomanState, c: char): Step {
    var v := ClosesWithVirama(o, st.hadConsonant);
    Step(1, (if v then ViramaText(tm) else "") + [c], st.(hadConsonant := false), v)
  }

  /** Whether `token` opens an SGML region (when `skipSgml` is set): "<" or one of `skipStarters`. */
  predicate OpensSgml(o: Options, token: string) {
    token == "<" || token in o.skipStarters.items
  }

  /** Whether `token` closes an SGML region: ">" or one of `skipEnds`. */
  predicate ClosesSgml(o: Options, token: string) {
    token == ">" || token in o.skipEnds.items
  }

  /** The SGML flag after examining `token`: the `if`/`else if` chain without its "##" branch. */
  function SgmlAfter(o: Options, skipping: bool, token: string): bool {
    if skipping then !ClosesSgml(o, token)
    else if OpensSgml(o, token) then o.skipSgml
    else false
  }

  /** The `for j` loop from iteration j on, over the remaining input `rest`. */
  function ScanFrom(rest: string, tm: TMap, o: Options, st: RomanState, j: nat): (r: Step)
    requires 0 < |rest| && j < tm.maxTokenLength
    ensures 1 <= r.consumed <= |rest| && r.consumed <= tm.maxTokenLength - j
    ensures !o.skipSgml && !st.skippingSgml ==> !r.state.skippingSgml
    ensures tm.toRoman && !st.hadConsonant ==> !r.state.hadConsonant && !r.usesVirama
    decreases tm.maxTokenLength - j
  {
    var M := tm.maxTokenLength;
    var token := rest[..Min(M - j, |rest|)];
    if !st.skippingSgml && token == "##" then
      Step(2, "", st.(toggledTrans := !st.toggledTrans), false)
    else
      var st' := st.(skippingSgml := SgmlAfter(o, st.skippingSgml, token));
      if token in tm.letters && !st'.skippingSgml && !st'.toggledTrans then
        var e := EmitLetter(tm, st.hadConsonant, token);
        Step(|token|, e.text, st'.(hadConsonant := e.hadConsonant), e.usesVirama)
      else if j == M - 1 then
        Fallback(tm, o, st', rest[0])
      else
        ScanFrom(rest, tm, o, st', j + 1)
  }

  /** The outer `while` loop over the remaining input, then the closing virama. */
  function RomanRun(rest: string, tm: TMap, o: Options, st: RomanState): (r: Output)
    ensures tm.toRoman && !st.hadConsonant ==> !r.usesVirama
    decreases |rest|
  {
    if |rest| == 0 || tm.maxTokenLength == 0 then Finish(tm, o, st.hadConsonant)
    else
      var s := ScanFrom(rest, tm, o, st, 0);
      Join(Output(s.emitted, s.usesVirama), RomanRun(rest[s.consumed..], tm, o, s.state))
  }

  /** The exception `virama[0]` raises on an empty virama group. */
  datatype RomanError = ViramaIndexOutOfBounds

  /** `transliterateRoman(data, map, options)`. */
  function TransliterateRoman(data: string, tm: TMap, o: Options): (r: Result<string, RomanError>)
    ensures tm.maxTokenLength == 0 ==> r == Success("")
    ensures tm.toRoman ==> r.Success?
    ensures |tm.virama| > 0 ==> r.Success?
  {
    var out := RomanRun(data, tm, o, Initial);
    if out.usesVirama && |tm.virama| == 0 then Failure(ViramaIndexOutOfBounds) else Success(out.text)
  }

  // ---------------------------------------------------------------------
  // Reference semantics: greedy tokenization, then rendering
  // ---------------------------------------------------------------------

  /** The length of the longest prefix of `s`, at most `bound` long, that is a key of `keys`. */
  function LongestKey(s: string, keys: map<string, string>, bound: nat): (r: Option<nat>)
    ensures r.None? <==> forall n | 1 <= n <= Min(bound, |s|) :: s[..n] !in keys
    ensures r.Some? ==>
              && 1 <= r.value <= Min(bound, |s|)
              && s[..r.value] in keys
              && forall n | r.value < n <= Min(bound, |s|) :: s[..n] !in keys
    decreases bound
  {
    var n := Min(bound, |s|);
    if n == 0 then None
    else if s[..n] in keys then Some(n)
    else LongestKey(s, keys, n - 1)
  }

  /** A token of the input: a key of `letters`, or one character that matched none. */
  datatype Token = Key(text: string) | Literal(c: char)

  function Spelling(t: Token): string {
    match t
    case Key(k) => k
    case Literal(c) => [c]
  }

  /** The input text the tokens were read from. */
  function Spell(ts: seq<Token>): string {
    if |ts| == 0 then "" else Spelling(ts[0]) + Spell(ts[1..])
  }

  /** Every `Key` token is a key of `keys`. */
  predicate KeysIn(ts: seq<Token>, keys: map<string, string>) {
    |ts| == 0 || ((ts[0].Key? ==> ts[0].text in keys) && KeysIn(ts[1..], keys))
  }

  /** The next token: the longest key of at most `bound` characters, else the first character. */
  function NextToken(s: string, keys: map<string, string>, bound: nat): (t: Token)
    requires |s| > 0
    ensures 1 <= |Spelling(t)| <= |s| && Spelling(t) == s[..|Spelling(t)|]
    ensures t.Key? ==> t.text in keys && |t.text| <= bound
  {
    match LongestKey(s, keys, bound)
    case Some(n) => Key(s[..n])
    case None => Literal(s[0])
  }

  /** Greedy longest-match tokenization of the whole input. */
  function Tokenize(s: string, keys: map<string, string>, bound: nat): (ts: seq<Token>)
    ensures Spell(ts) == s
    ensures KeysIn(ts, keys)
    decreases |s|
  {
    if |s| == 0 then []
    else
      var t := NextToken(s, keys, bound);
      var n := |Spelling(t)|;
      var tail := Tokenize(s[n..], keys, bound);
      var ts := [t] + tail;
      assert ts[1..] == tail;
      assert s == s[..n] + s[n..];
      ts
  }

  /** The text for a token sequence under the inherent-vowel rules, starting after `had`. */
  function Render(ts: seq<Token>, tm: TMap, o: Options, had: bool): Output
    requires KeysIn(ts, tm.letters)
  {
    if |ts| == 0 then Finish(tm, o, had)
    else
      match ts[0]
      case Key(k) =>
        var e := EmitLetter(tm, had, k);
        Join(Output(e.text, e.usesVirama), Render(ts[1..], tm, o, e.hadConsonant))
      case Literal(c) =>
        var v := ClosesWithVirama(o, had);
        Join(Output((if v then ViramaText(tm) else "") + [c], v), Render(ts[1..], tm, o, false))
  }

  /** Keys replaced by their `letters` value, literal characters kept. */
  function MapTokens(ts: seq<Token>, letters: map<string, string>): string
    requires KeysIn(ts, letters)
  {
    if |ts| == 0 then ""
    else (match ts[0] case Key(k) => letters[k] case Literal(c) => [c]) + MapTokens(ts[1..], letters)
  }

  // ---------------------------------------------------------------------
  // The loop agrees with the reference outside skip regions
  // ---------------------------------------------------------------------

  /** The step the reference takes for the token `t`. */
  function TokenStep(tm: TMap, o: Options, had: bool, t: Token): Step
    requires t.Key? ==> t.text in tm.letters
  {
    match t
    case Key(k) =>
      var e := EmitLetter(tm, had, k);
      Step(|k|, e.text, RomanState(e.hadConsonant, false, false), e.usesVirama)
    case Literal(c) => Fallback(tm, o, RomanState(had, false, false), c)
  }

  /**
   * No SGML region can open among the first maxTokenLength characters:
   * skipping is off, or no prefix examined is "<" or a starter.
   */
  predicate OpensNoPrefix(rest: string, tm: TMap, o: Options) {
    o.skipSgml ==> forall n | 1 <= n <= Min(tm.maxTokenLength, |rest|) :: !OpensSgml(o, rest[..n])
  }

  /** No SGML region can open anywhere in `s`: no window of the loop is "<" or a starter. */
  predicate OpensNowhere(s: string, tm: TMap, o: Options) {
    o.skipSgml ==> forall p, q | 0 <= p < q <= |s| && q - p <= tm.maxTokenLength :: !OpensSgml(o, s[p..q])
  }

  /** Outside both skip regions, no region opening here, and the input does not start with '#'. */
  predicate Plain(rest: string, tm: TMap, o: Options, st: RomanState) {
    0 < |rest| && !st.skippingSgml && !st.toggledTrans && rest[0] != '#' && OpensNoPrefix(rest, tm, o)
  }

  /**
   * Outside a toggled or SGML region, where no region opens, and unless the
   * input starts with '#', the prefix loop from iteration j on takes the
   * longest key of at most maxTokenLength-j characters, or copies one character.
   */
  lemma {:induction false} ScanFromIsLongestKey(rest: string, tm: TMap, o: Options, st: RomanState, j: nat)
    requires Plain(rest, tm, o, st) && j < tm.maxTokenLength
    ensures ScanFrom(rest, tm, o, st, j)
            == TokenStep(tm, o, st.hadConsonant, NextToken(rest, tm.letters, tm.maxTokenLength - j))
    decreases tm.maxTokenLength - j
  {
    if rest[..Min(tm.maxTokenLength - j, |rest|)] in tm.letters {
      PlainScanMatches(rest, tm, o, st, j);
    } else if j < tm.maxTokenLength - 1 {
      ScanFromIsLongestKey(rest, tm, o, st, j + 1);
      PlainScanMovesOn(rest, tm, o, st, j);
    } else {
      PlainScanFallsBack(rest, tm, o, st, j);
    }
  }

  /** ScanFromIsLongestKey when the prefix examined at iteration j is a key. */
  lemma PlainScanMatches(rest: string, tm: TMap, o: Options, st: RomanState, j: nat)
    requires Plain(rest, tm, o, st) && j < tm.maxTokenLength
    requires rest[..Min(tm.maxTokenLength - j, |rest|)] in tm.letters
    ensures ScanFrom(rest, tm, o, st, j)
            == TokenStep(tm, o, st.hadConsonant, NextToken(rest, tm.letters, tm.maxTokenLength - j))
  {
    var token := rest[..Min(tm.maxTokenLength - j, |rest|)];
    assert token[0] == rest[0];
    assert SgmlAfter(o, false, token) == false;
    assert LongestKey(rest, tm.letters, tm.maxTokenLength - j) == Some(|token|);
  }

  /** When the prefix examined at iteration j is not a key and j is not last, both sides move to j+1. */
  lemma PlainScanMovesOn(rest: string, tm: TMap, o: Options, st: RomanState, j: nat)
    requires Plain(rest, tm, o, st) && j < tm.maxTokenLength - 1
    requires rest[..Min(tm.maxTokenLength - j, |rest|)] !in tm.letters
    requires ScanFrom(rest, tm, o, st, j + 1)
             == TokenStep(tm, o, st.hadConsonant, NextToken(rest, tm.letters, tm.maxTokenLength - (j + 1)))
    ensures ScanFrom(rest, tm, o, st, j) == ScanFrom(rest, tm, o, st, j + 1)
    ensures NextToken(rest, tm.letters, tm.maxTokenLength - j) == NextToken(rest, tm.letters, tm.maxTokenLength - (j + 1))
    ensures ScanFrom(rest, tm, o, st, j)
            == TokenStep(tm, o, st.hadConsonant, NextToken(rest, tm.letters, tm.maxTokenLength - j))
  {
    PlainScanSkips(rest, tm, o, st, j);
    LongestKeySkips(rest, tm.letters, tm.maxTokenLength - j);
  }

  /** The ScanFrom half of PlainScanMovesOn. */
  lemma PlainScanSkips(rest: string, tm: TMap, o: Options, st: RomanState, j: nat)
    requires Plain(rest, tm, o, st) && j < tm.maxTokenLength - 1
    requires rest[..Min(tm.maxTokenLength - j, |rest|)] !in tm.letters
    ensures ScanFrom(rest, tm, o, st, j) == ScanFrom(rest, tm, o, st, j + 1)
  {
    var token := rest[..Min(tm.maxTokenLength - j, |rest|)];
    assert token != "##" by {
      assert token[0] == rest[0];
    }
    assert !OpensSgml(o, token) || !o.skipSgml;
    assert st.(skippingSgml := SgmlAfter(o, false, token)) == st;
  }

  /** ScanFromIsLongestKey at the last iteration with no key found. */
  lemma PlainScanFallsBack(rest: string, tm: TMap, o: Options, st: RomanState, j: nat)
    requires Plain(rest, tm, o, st) && j == tm.maxTokenLength - 1
    requires rest[..Min(tm.maxTokenLength - j, |rest|)] !in tm.letters
    ensures ScanFrom(rest, tm, o, st, j)
            == TokenStep(tm, o, st.hadConsonant, NextToken(rest, tm.letters, tm.maxTokenLength - j))
  {
    var token := rest[..1];
    assert token[0] == rest[0];
    assert SgmlAfter(o, false, token) == false;
    LongestKeySkips(rest, tm.letters, 1);
    assert LongestKey(rest, tm.letters, 0) == None;
  }

  /** A bound whose own prefix is not a key can be lowered by one. */
  lemma LongestKeySkips(s: string, keys: map<string, string>, bound: nat)
    requires 1 <= bound && 0 < |s| && s[..Min(bound, |s|)] !in keys
    ensures LongestKey(s, keys, bound) == LongestKey(s, keys, bound - 1)
  {
    if bound > |s| {
      assert LongestKey(s, keys, bound - 1) == LongestKey(s, keys, |s| - 1);
    }
  }

  /**
   * Where no toggle or SGML region begins, the source loop is greedy
   * tokenization followed by rendering: tokenizer and inherent-vowel rules
   * are independent.
   */
  lemma {:induction false} PlainRunIsRender(rest: string, tm: TMap, o: Options, had: bool)
    requires tm.maxTokenLength > 0 && OpensNowhere(rest, tm, o)
    requires forall i | 0 <= i < |rest| :: rest[i] != '#'
    ensures RomanRun(rest, tm, o, RomanState(had, false, false))
            == Render(Tokenize(rest, tm.letters, tm.maxTokenLength), tm, o, had)
    decreases |rest|
  {
    var M := tm.maxTokenLength;
    if |rest| > 0 {
      var st := RomanState(had, false, false);
      OpensNowhereAtFront(rest, tm, o);
      ScanFromIsLongestKey(rest, tm, o, st, 0);
      var t := NextToken(rest, tm.letters, M);
      var s := ScanFrom(rest, tm, o, st, 0);
      var n := |Spelling(t)|;
      assert s.consumed == n;
      var ts := Tokenize(rest, tm.letters, M);
      assert ts[0] == t && ts[1..] == Tokenize(rest[n..], tm.letters, M);
      OpensNowhereAfter(rest, n, tm, o);
      PlainRunIsRender(rest[n..], tm, o, s.state.hadConsonant);
    }
  }

  lemma OpensNowhereAtFront(s: string, tm: TMap, o: Options)
    requires OpensNowhere(s, tm, o)
    ensures OpensNoPrefix(s, tm, o)
  {
    if o.skipSgml {
      forall n | 1 <= n <= Min(tm.maxTokenLength, |s|) ensures !OpensSgml(o, s[..n]) {
        assert s[..n] == s[0..n];
      }
    }
  }

  lemma OpensNowhereAfter(s: string, n: nat, tm: TMap, o: Options)
    requires n <= |s| && OpensNowhere(s, tm, o)
    ensures OpensNowhere(s[n..], tm, o)
  {
    var tail := s[n..];
    if o.skipSgml {
      forall p, q | 0 <= p < q <= |tail| && q - p <= tm.maxTokenLength ensures !OpensSgml(o, tail[p..q]) {
        assert tail[p..q] == s[p + n..q + n];
      }
    }
  }

  /** The reference step consumes exactly one token's spelling. */
  lemma TokenStepConsumes(tm: TMap, o: Options, had: bool, t: Token)
    requires t.Key? ==> t.text in tm.letters
    ensures TokenStep(tm, o, had, t).consumed == |Spelling(t)|
  {
  }

  /** Towards a roman scheme the rendering is the token-wise mapping, and never needs a virama. */
  lemma {:induction false} RomanDestinationMapsTokens(ts: seq<Token>, tm: TMap, o: Options)
    requires tm.toRoman && KeysIn(ts, tm.letters)
    ensures Render(ts, tm, o, false) == Output(MapTokens(ts, tm.letters), false)
  {
    if |ts| > 0 {
      RomanDestinationMapsTokens(ts[1..], tm, o);
    }
  }

  /**
   * Greedy progress towards a roman scheme: every character of the input is
   * either part of a longest-matching key, replaced by its letter, or copied
   * as it is; no virama is emitted.
   */
  lemma RomanDestinationIsGreedy(data: string, tm: TMap, o: Options)
    requires tm.toRoman && tm.maxTokenLength > 0 && OpensNowhere(data, tm, o)
    requires forall i | 0 <= i < |data| :: data[i] != '#'
    ensures TransliterateRoman(data, tm, o)
            == Success(MapTokens(Tokenize(data, tm.letters, tm.maxTokenLength), tm.letters))
  {
    PlainRunIsRender(data, tm, o, false);
    RomanDestinationMapsTokens(Tokenize(data, tm.letters, tm.maxTokenLength), tm, o);
  }

  // ---------------------------------------------------------------------
  // Skip regions
  // ---------------------------------------------------------------------

  /**
   * "##" at the front of the input, outside SGML, flips the toggle and is
   * dropped without output, provided no longer prefix is claimed first by
   * `letters` or by an SGML starter.
   */
  lemma {:induction false} ToggleStep(rest: string, tm: TMap, o: Options, st: RomanState, j: nat)
    requires 2 <= |rest| && rest[..2] == "##" && !st.skippingSgml
    requires j < tm.maxTokenLength && 2 <= tm.maxTokenLength - j
    requires forall n | 2 < n <= Min(tm.maxTokenLength, |rest|) ::
               rest[..n] !in tm.letters && rest[..n] !in o.skipStarters.items
    ensures ScanFrom(rest, tm, o, st, j) == Step(2, "", st.(toggledTrans := !st.toggledTrans), false)
    decreases tm.maxTokenLength - j
  {
    var token := rest[..Min(tm.maxTokenLength - j, |rest|)];
    if |token| > 2 {
      assert token[0] == '#' && token != "<" && token != "##";
      assert SgmlAfter(o, false, token) == false;
      ToggleStep(rest, tm, o, st, j + 1);
    } else {
      assert token == rest[..2];
    }
  }

  /** Inside a toggled region each step copies one character verbatim (a '#' aside). */
  lemma {:induction false} ToggledStep(rest: string, tm: TMap, o: Options, st: RomanState, j: nat)
    requires 0 < |rest| && j < tm.maxTokenLength
    requires st.toggledTrans && !st.hadConsonant && rest[0] != '#'
    ensures var r := ScanFrom(rest, tm, o, st, j);
            && r.consumed == 1 && r.emitted == [rest[0]] && !r.usesVirama
            && r.state.toggledTrans && !r.state.hadConsonant
    decreases tm.maxTokenLength - j
  {
    var token := rest[..Min(tm.maxTokenLength - j, |rest|)];
    assert token[0] == rest[0];
    if j < tm.maxTokenLength - 1 {
      ToggledStep(rest, tm, o, st.(skippingSgml := SgmlAfter(o, st.skippingSgml, token)), j + 1);
    }
  }

  /** A toggled region without '#' comes out exactly as it went in. */
  lemma {:induction false} ToggledRegionVerbatim(rest: string, tm: TMap, o: Options, st: RomanState)
    requires tm.maxTokenLength > 0 && st.toggledTrans && !st.hadConsonant
    requires forall i | 0 <= i < |rest| :: rest[i] != '#'
    ensures RomanRun(rest, tm, o, st) == Output(rest, false)
    decreases |rest|
  {
    if |rest| > 0 {
      ToggledStep(rest, tm, o, st, 0);
      var s := ScanFrom(rest, tm, o, st, 0);
      ToggledRegionVerbatim(rest[1..], tm, o, s.state);
      assert rest == [rest[0]] + rest[1..];
    }
  }

  /** No key of `letters` and no SGML starter begins with '#', so "##" is always read as a toggle. */
  predicate NoHashKeys(tm: TMap, o: Options) {
    && (forall k | k in tm.letters && 0 < |k| :: k[0] != '#')
    && (forall k | k in o.skipStarters.items && 0 < |k| :: k[0] != '#')
  }

  /** Outside SGML, with a bound of at least two, "##" at the front toggles whatever follows it. */
  lemma HashPairToggles(rest: string, tm: TMap, o: Options, st: RomanState)
    requires 2 <= |rest| && rest[..2] == "##" && !st.skippingSgml
    requires 2 <= tm.maxTokenLength && NoHashKeys(tm, o)
    ensures ScanFrom(rest, tm, o, st, 0) == Step(2, "", st.(toggledTrans := !st.toggledTrans), false)
  {
    forall n | 2 < n <= Min(tm.maxTokenLength, |rest|)
      ensures rest[..n] !in tm.letters && rest[..n] !in o.skipStarters.items
    {
      assert rest[..n][0] == rest[..2][0] == '#';
    }
    ToggleStep(rest, tm, o, st, 0);
  }

  /**
   * Inside a toggled region, outside SGML and where no region opens, the
   * loop copies one character, closing a pending consonant first.
   */
  lemma {:induction false} ToggledCopy(rest: string, tm: TMap, o: Options, st: RomanState, j: nat)
    requires 0 < |rest| && j < tm.maxTokenLength && rest[0] != '#'
    requires st.toggledTrans && !st.skippingSgml && OpensNoPrefix(rest, tm, o)
    ensures ScanFrom(rest, tm, o, st, j) == Fallback(tm, o, st, rest[0])
    decreases tm.maxTokenLength - j
  {
    var token := rest[..Min(tm.maxTokenLength - j, |rest|)];
    assert token[0] == rest[0];
    assert SgmlAfter(o, false, token) == false;
    if j < tm.maxTokenLength - 1 {
      ToggledCopy(rest, tm, o, st, j + 1);
    }
  }

  /** The run over "##" + rest is the run over rest with the toggle flipped. */
  lemma HashPairRun(rest: string, tm: TMap, o: Options, st: RomanState)
    requires !st.skippingSgml && 2 <= tm.maxTokenLength && NoHashKeys(tm, o)
    ensures RomanRun("##" + rest, tm, o, st) == RomanRun(rest, tm, o, st.(toggledTrans := !st.toggledTrans))
  {
    var w := "##" + rest;
    assert w[..2] == "##" && w[2..] == rest;
    HashPairToggles(w, tm, o, st);
    RunUnfolds(w, tm, o, st);
    var r := RomanRun(rest, tm, o, st.(toggledTrans := !st.toggledTrans));
    assert "" + r.text == r.text;
  }

  /**
   * A character between two "##" (what an ITRANS escape becomes) is copied
   * as it is, after a closing virama when a consonant was pending, and the
   * loop carries on untoggled with nothing pending.
   */
  lemma EscapedCharPasses(c: char, rest: string, tm: TMap, o: Options, had: bool)
    requires c != '#' && 2 <= tm.maxTokenLength && NoHashKeys(tm, o)
    requires OpensNoPrefix([c] + ("##" + rest), tm, o)
    ensures var v := ClosesWithVirama(o, had);
            RomanRun("##" + [c] + "##" + rest, tm, o, RomanState(had, false, false))
            == Join(Output((if v then ViramaText(tm) else "") + [c], v), RomanRun(rest, tm, o, Initial))
  {
    assert "##" + [c] + "##" + rest == "##" + ([c] + ("##" + rest));
    HashPairRun([c] + ("##" + rest), tm, o, RomanState(had, false, false));
    EscapedBody(c, rest, tm, o, had);
  }

  /** EscapedCharPasses once the opening "##" is consumed. */
  lemma EscapedBody(c: char, rest: string, tm: TMap, o: Options, had: bool)
    requires c != '#' && 2 <= tm.maxTokenLength && NoHashKeys(tm, o)
    requires OpensNoPrefix([c] + ("##" + rest), tm, o)
    ensures var v := ClosesWithVirama(o, had);
            RomanRun([c] + ("##" + rest), tm, o, RomanState(had, false, true))
            == Join(Output((if v then ViramaText(tm) else "") + [c], v), RomanRun(rest, tm, o, Initial))
  {
    var w1 := [c] + ("##" + rest);
    ToggledCopy(w1, tm, o, RomanState(had, false, true), 0);
    RunUnfolds(w1, tm, o, RomanState(had, false, true));
    assert w1[1..] == "##" + rest;
    HashPairRun(rest, tm, o, RomanState(false, false, true));
  }

  /**
   * "####" (what an ITRANS trailing backslash becomes) toggles twice and
   * writes nothing: the end of input behaves as if it were absent.
   */
  lemma TrailingTogglesWriteNothing(tm: TMap, o: Options, st: RomanState)
    requires !st.skippingSgml && 2 <= tm.maxTokenLength && NoHashKeys(tm, o)
    ensures RomanRun("####", tm, o, st) == RomanRun("", tm, o, st)
  {
    assert "####" == "##" + "##" && "##" == "##" + "";
    HashPairRun("##", tm, o, st);
    HashPairRun("", tm, o, st.(toggledTrans := !st.toggledTrans));
  }

  /** No key of `letters` and no SGML starter contains '#' at all. */
  predicate HashFreeKeys(tm: TMap, o: Options) {
    && (forall k | k in tm.letters :: '#' !in k)
    && (forall k | k in o.skipStarters.items :: '#' !in k)
  }

  /** Keys that never contain a '#' also never begin with one. */
  lemma HashFreeKeysBeginWithout(tm: TMap, o: Options)
    requires HashFreeKeys(tm, o)
    ensures NoHashKeys(tm, o)
  {
    forall k | k in tm.letters && 0 < |k| ensures k[0] != '#' {
      assert k[0] in k;
    }
    forall k | k in o.skipStarters.items && 0 < |k| ensures k[0] != '#' {
      assert k[0] in k;
    }
  }

  /** The longest key prefix is unchanged by a suffix that no key reaches into. */
  lemma LongestKeyIgnoresTail(x: string, y: string, keys: map<string, string>, bound: nat)
    requires forall n | |x| < n <= Min(bound, |x + y|) :: (x + y)[..n] !in keys
    ensures LongestKey(x + y, keys, bound) == LongestKey(x, keys, bound)
  {
    var r1, r2 := LongestKey(x + y, keys, bound), LongestKey(x, keys, bound);
    assert forall n | 1 <= n <= Min(bound, |x|) :: (x + y)[..n] == x[..n];
    if r1.Some? {
      assert r1.value <= |x|;
      assert x[..r1.value] in keys;
    }
    if r2.Some? {
      assert (x + y)[..r2.value] in keys;
    }
  }

  /**
   * A run over text without '#', where no SGML region opens, ends the same
   * whether or not "####" follows: the two toggles write nothing and no key
   * reaches into them.
   */
  lemma {:induction false} TrailingTogglesVanish(x: string, tm: TMap, o: Options, had: bool)
    requires 2 <= tm.maxTokenLength && HashFreeKeys(tm, o) && OpensNowhere(x, tm, o)
    requires forall i | 0 <= i < |x| :: x[i] != '#'
    ensures RomanRun(x + "####", tm, o, RomanState(had, false, false)) == RomanRun(x, tm, o, RomanState(had, false, false))
    decreases |x|
  {
    var st := RomanState(had, false, false);
    if |x| == 0 {
      HashFreeKeysBeginWithout(tm, o);
      assert x + "####" == "####";
      TrailingTogglesWriteNothing(tm, o, st);
    } else {
      var n := TrailingTogglesStep(x, tm, o, had);
      OpensNowhereAfter(x, n, tm, o);
      TrailingTogglesVanish(x[n..], tm, o, ScanFrom(x, tm, o, st, 0).state.hadConsonant);
    }
  }

  /** One step of TrailingTogglesVanish: both runs take the same first token, of length n. */
  lemma TrailingTogglesStep(x: string, tm: TMap, o: Options, had: bool) returns (n: nat)
    requires 0 < |x| && 2 <= tm.maxTokenLength && HashFreeKeys(tm, o) && OpensNowhere(x, tm, o)
    requires forall i | 0 <= i < |x| :: x[i] != '#'
    ensures 1 <= n <= |x|
    ensures var s := ScanFrom(x, tm, o, RomanState(had, false, false), 0);
            && s.consumed == n && !s.state.skippingSgml && !s.state.toggledTrans
            && RomanRun(x + "####", tm, o, RomanState(had, false, false))
               == Join(Output(s.emitted, s.usesVirama), RomanRun(x[n..] + "####", tm, o, s.state))
            && RomanRun(x, tm, o, RomanState(had, false, false))
               == Join(Output(s.emitted, s.usesVirama), RomanRun(x[n..], tm, o, s.state))
  {
    var st := RomanState(had, false, false);
    var w := x + "####";
    var s := ScanFrom(x, tm, o, st, 0);
    SameFirstStep(x, "####", tm, o, st);
    n := s.consumed;
    RunUnfolds(x, tm, o, st);
    RunUnfolds(w, tm, o, st);
    DropOfConcat(x, "####", n);
  }

  lemma DropOfConcat(x: string, y: string, n: nat)
    requires n <= |x|
    ensures (x + y)[n..] == x[n..] + y
  {
  }

  /**
   * Where no region opens and `y` starts with '#', which no key contains,
   * the first step on x + y is the first step on x: the greedy token.
   */
  lemma SameFirstStep(x: string, y: string, tm: TMap, o: Options, st: RomanState)
    requires 0 < |x| && 0 < |y| && y[0] == '#' && x[0] != '#' && 0 < tm.maxTokenLength
    requires HashFreeKeys(tm, o) && OpensNowhere(x, tm, o) && !st.skippingSgml && !st.toggledTrans
    ensures ScanFrom(x + y, tm, o, st, 0) == ScanFrom(x, tm, o, st, 0)
    ensures ScanFrom(x, tm, o, st, 0) == TokenStep(tm, o, st.hadConsonant, NextToken(x, tm.letters, tm.maxTokenLength))
  {
    OpensNowhereAtFront(x, tm, o);
    PlainBeforeHash(x, y, tm, o, st);
    ScanFromIsLongestKey(x, tm, o, st, 0);
    ScanWithHashTail(x, y, tm, o, st);
  }

  /** The first step on x + y is the greedy step on x. */
  lemma ScanWithHashTail(x: string, y: string, tm: TMap, o: Options, st: RomanState)
    requires 0 < |x| && 0 < |y| && y[0] == '#' && 0 < tm.maxTokenLength
    requires HashFreeKeys(tm, o) && Plain(x + y, tm, o, st)
    ensures ScanFrom(x + y, tm, o, st, 0) == TokenStep(tm, o, st.hadConsonant, NextToken(x, tm.letters, tm.maxTokenLength))
  {
    var w := x + y;
    forall m | |x| < m <= Min(tm.maxTokenLength, |w|) ensures w[..m] !in tm.letters {
      assert w[..m][|x|] == '#';
    }
    NextTokenIgnoresTail(x, y, tm.letters, tm.maxTokenLength);
    ScanFromIsLongestKey(w, tm, o, st, 0);
  }

  /** The greedy token is unchanged by a suffix that no key reaches into. */
  lemma NextTokenIgnoresTail(x: string, y: string, keys: map<string, string>, bound: nat)
    requires 0 < |x|
    requires forall n | |x| < n <= Min(bound, |x + y|) :: (x + y)[..n] !in keys
    ensures NextToken(x + y, keys, bound) == NextToken(x, keys, bound)
  {
    LongestKeyIgnoresTail(x, y, keys, bound);
    match LongestKey(x, keys, bound)
    case Some(n) => assert (x + y)[..n] == x[..n];
    case None => assert (x + y)[0] == x[0];
  }

  lemma PlainBeforeHash(x: string, y: string, tm: TMap, o: Options, st: RomanState)
    requires 0 < |x| && 0 < |y| && y[0] == '#' && x[0] != '#'
    requires HashFreeKeys(tm, o) && OpensNoPrefix(x, tm, o) && !st.skippingSgml && !st.toggledTrans
    ensures Plain(x, tm, o, st) && Plain(x + y, tm, o, st)
  {
    var w := x + y;
    assert w[0] == x[0];
    if o.skipSgml {
      forall m | 1 <= m <= Min(tm.maxTokenLength, |w|) ensures !OpensSgml(o, w[..m]) {
        if m <= |x| {
          assert w[..m] == x[..m];
        } else {
          assert w[..m][|x|] == '#';
        }
      }
    }
  }

  /** Inside an SGML region each step copies one character, while no prefix it examines closes the region. */
  lemma {:induction false} SgmlStep(rest: string, tm: TMap, o: Options, st: RomanState, j: nat)
    requires 0 < |rest| && j < tm.maxTokenLength && st.skippingSgml
    requires forall n | 1 <= n <= Min(tm.maxTokenLength - j, |rest|) :: !ClosesSgml(o, rest[..n])
    ensures ScanFrom(rest, tm, o, st, j) == Fallback(tm, o, st, rest[0])
    decreases tm.maxTokenLength - j
  {
    var token := rest[..Min(tm.maxTokenLength - j, |rest|)];
    assert !ClosesSgml(o, token);
    if j < tm.maxTokenLength - 1 {
      SgmlStep(rest, tm, o, st, j + 1);
    }
  }

  /** No piece of `s` closes an SGML region. */
  predicate ClosesNowhere(s: string, o: Options) {
    forall p, q | 0 <= p < q <= |s| :: !ClosesSgml(o, s[p..q])
  }

  lemma ClosesNowhereAtFront(s: string, o: Options, bound: nat)
    requires ClosesNowhere(s, o)
    ensures forall n | 1 <= n <= Min(bound, |s|) :: !ClosesSgml(o, s[..n])
  {
    forall n | 1 <= n <= Min(bound, |s|) ensures !ClosesSgml(o, s[..n]) {
      assert s[..n] == s[0..n];
    }
  }

  lemma ClosesNowhereAfter(s: string, o: Options)
    requires 0 < |s| && ClosesNowhere(s, o)
    ensures ClosesNowhere(s[1..], o)
  {
    var t := s[1..];
    forall p, q | 0 <= p < q <= |t| ensures !ClosesSgml(o, t[p..q]) {
      assert t[p..q] == s[p + 1..q + 1];
    }
  }

  /**
   * Text inside an SGML region is copied verbatim and never looked up, so
   * long as no part of it closes the region ('#' included: "##" is not
   * recognised there).
   */
  lemma {:induction false} SgmlRegionVerbatim(rest: string, tm: TMap, o: Options, st: RomanState)
    requires tm.maxTokenLength > 0 && st.skippingSgml && !st.hadConsonant
    requires ClosesNowhere(rest, o)
    ensures RomanRun(rest, tm, o, st) == Output(rest, false)
    decreases |rest|
  {
    if |rest| > 0 {
      ClosesNowhereAtFront(rest, o, tm.maxTokenLength);
      SgmlStep(rest, tm, o, st, 0);
      var tail := rest[1..];
      ClosesNowhereAfter(rest, o);
      SgmlRegionVerbatim(tail, tm, o, st);
      assert rest == [rest[0]] + tail;
    }
  }

  /**
   * A prefix the loop passes over without effect outside SGML: no toggle,
   * no region opening, no key.
   */
  predicate Inert(tm: TMap, o: Options, token: string) {
    token != "##" && !OpensSgml(o, token) && token !in tm.letters
  }

  /** Outside SGML, when every prefix still to be examined is inert, the loop copies one character. */
  lemma {:induction false} InertFallsBack(rest: string, tm: TMap, o: Options, st: RomanState, j: nat)
    requires 0 < |rest| && j < tm.maxTokenLength && !st.skippingSgml
    requires forall n | 1 <= n <= Min(tm.maxTokenLength - j, |rest|) :: Inert(tm, o, rest[..n])
    ensures ScanFrom(rest, tm, o, st, j) == Fallback(tm, o, st, rest[0])
    decreases tm.maxTokenLength - j
  {
    var token := rest[..Min(tm.maxTokenLength - j, |rest|)];
    assert Inert(tm, o, token);
    assert token[0] == rest[0];
    if j < tm.maxTokenLength - 1 {
      InertFallsBack(rest, tm, o, st, j + 1);
    }
  }

  /**
   * With `skipSgml`, outside SGML, a "<" or a starter of length k at the
   * front opens a region: the first character is copied as it is (after a
   * closing virama when a consonant is pending) and the state is skipping,
   * provided the longer prefixes examined first are inert and no prefix up
   * to length k closes the region again.
   */
  lemma {:induction false} SgmlOpensAt(rest: string, tm: TMap, o: Options, st: RomanState, j: nat, k: nat)
    requires 1 <= k <= Min(tm.maxTokenLength - j, |rest|) && j < tm.maxTokenLength
    requires o.skipSgml && !st.skippingSgml
    requires OpensSgml(o, rest[..k]) && rest[..k] != "##"
    requires forall n | k < n <= Min(tm.maxTokenLength - j, |rest|) :: Inert(tm, o, rest[..n])
    requires forall n | 1 <= n <= k :: !ClosesSgml(o, rest[..n])
    ensures ScanFrom(rest, tm, o, st, j) == Fallback(tm, o, st.(skippingSgml := true), rest[0])
    decreases tm.maxTokenLength - j
  {
    var token := rest[..Min(tm.maxTokenLength - j, |rest|)];
    assert token[0] == rest[0];
    if |token| > k {
      assert Inert(tm, o, token);
      SgmlOpensAt(rest, tm, o, st, j + 1, k);
    } else {
      assert token == rest[..k];
      if j < tm.maxTokenLength - 1 {
        SgmlStep(rest, tm, o, st.(skippingSgml := true), j + 1);
      }
    }
  }

  /** A '<' at the front opens a region when nothing longer is claimed first. */
  lemma SgmlOpensAtAngle(rest: string, tm: TMap, o: Options, st: RomanState)
    requires 0 < |rest| && rest[0] == '<' && 0 < tm.maxTokenLength
    requires o.skipSgml && !st.skippingSgml && !ClosesSgml(o, "<")
    requires forall n | 1 < n <= Min(tm.maxTokenLength, |rest|) :: Inert(tm, o, rest[..n])
    ensures ScanFrom(rest, tm, o, st, 0) == Fallback(tm, o, st.(skippingSgml := true), '<')
  {
    assert rest[..1] == "<";
    SgmlOpensAt(rest, tm, o, st, 0, 1);
  }

  /**
   * Inside SGML, a closing token of length k at the front (">" or one of
   * `skipEnds`) ends the region: the first character is copied as it is and
   * the state is no longer skipping, provided no longer prefix closes first
   * and the prefixes up to length k are inert once the region is closed.
   */
  lemma {:induction false} SgmlClosesAt(rest: string, tm: TMap, o: Options, st: RomanState, j: nat, k: nat)
    requires 1 <= k <= Min(tm.maxTokenLength - j, |rest|) && j < tm.maxTokenLength
    requires st.skippingSgml && ClosesSgml(o, rest[..k])
    requires forall n | k < n <= Min(tm.maxTokenLength - j, |rest|) :: !ClosesSgml(o, rest[..n])
    requires forall n | 1 <= n <= k :: Inert(tm, o, rest[..n])
    ensures ScanFrom(rest, tm, o, st, j) == Fallback(tm, o, st.(skippingSgml := false), rest[0])
    decreases tm.maxTokenLength - j
  {
    var token := rest[..Min(tm.maxTokenLength - j, |rest|)];
    if |token| > k {
      SgmlClosesAt(rest, tm, o, st, j + 1, k);
    } else {
      assert token == rest[..k];
      assert Inert(tm, o, token);
      if j < tm.maxTokenLength - 1 {
        InertFallsBack(rest, tm, o, st.(skippingSgml := false), j + 1);
      }
    }
  }

  /** No window of the loop that starts among the first k characters of `s` closes an SGML region. */
  predicate NoCloseBefore(s: string, k: nat, tm: TMap, o: Options) {
    forall p, q | 0 <= p < k && p < q <= |s| && q - p <= tm.maxTokenLength :: !ClosesSgml(o, s[p..q])
  }

  /**
   * `close` ends an SGML region when it heads `close + after`: it is ">" or
   * one of `skipEnds` within the token bound, no longer prefix closes
   * first, and its own prefixes are inert once the region is closed.
   */
  predicate ClosingToken(close: string, after: string, tm: TMap, o: Options) {
    && 1 <= |close| <= tm.maxTokenLength && ClosesSgml(o, close)
    && (forall n | 1 <= n <= |close| :: Inert(tm, o, close[..n]))
    && (forall n | |close| < n <= Min(tm.maxTokenLength, |close + after|) :: !ClosesSgml(o, (close + after)[..n]))
  }

  /**
   * A whole SGML region: its text and the first character of the closing
   * token come out verbatim, and transliteration resumes, outside SGML,
   * with the rest of the closing token.
   */
  lemma {:induction false} SgmlRegionCloses(region: string, close: string, after: string, tm: TMap, o: Options, st: RomanState)
    requires st.skippingSgml && !st.hadConsonant
    requires ClosingToken(close, after, tm, o) && NoCloseBefore(region + (close + after), |region|, tm, o)
    ensures RomanRun(region + (close + after), tm, o, st)
            == Join(Output(region + [close[0]], false), RomanRun(close[1..] + after, tm, o, st.(skippingSgml := false)))
    decreases |region|
  {
    if |region| == 0 {
      assert region + (close + after) == close + after;
      SgmlCloseStep(close, after, tm, o, st);
    } else {
      var tail := region[1..];
      SgmlRegionStep(region, close + after, tm, o, st);
      SgmlRegionCloses(tail, close, after, tm, o, st);
      JoinAssociates(Output([region[0]], false), Output(tail + [close[0]], false),
                     RomanRun(close[1..] + after, tm, o, st.(skippingSgml := false)));
      assert [region[0]] + (tail + [close[0]]) == region + [close[0]];
    }
  }

  /**
   * A whole tag with `skipSgml`: "<", the tag's text and ">" come out
   * verbatim, and the text after the tag is transliterated afresh.
   */
  lemma SgmlTagVerbatim(region: string, after: string, tm: TMap, o: Options)
    requires o.skipSgml && 0 < tm.maxTokenLength && !ClosesSgml(o, "<")
    requires forall n | 1 < n <= Min(tm.maxTokenLength, |"<" + (region + (">" + after))|) ::
               Inert(tm, o, ("<" + (region + (">" + after)))[..n])
    requires ClosingToken(">", after, tm, o) && NoCloseBefore(region + (">" + after), |region|, tm, o)
    ensures RomanRun("<" + (region + (">" + after)), tm, o, Initial)
            == Join(Output("<" + region + ">", false), RomanRun(after, tm, o, Initial))
  {
    var w := "<" + (region + (">" + after));
    assert w[0] == '<' && w[1..] == region + (">" + after);
    SgmlOpensAtAngle(w, tm, o, Initial);
    RunUnfolds(w, tm, o, Initial);
    SgmlRegionCloses(region, ">", after, tm, o, RomanState(false, true, false));
    assert ">"[1..] + after == after;
    assert "<" + (region + ">") == "<" + region + ">";
  }

  /** The closing step of SgmlRegionCloses, on a region already consumed. */
  lemma SgmlCloseStep(close: string, after: string, tm: TMap, o: Options, st: RomanState)
    requires st.skippingSgml && !st.hadConsonant && ClosingToken(close, after, tm, o)
    ensures RomanRun(close + after, tm, o, st)
            == Join(Output([close[0]], false), RomanRun(close[1..] + after, tm, o, st.(skippingSgml := false)))
  {
    var rest := close + after;
    assert rest[..|close|] == close;
    assert forall n | 1 <= n <= |close| :: rest[..n] == close[..n];
    SgmlClosesAt(rest, tm, o, st, 0, |close|);
    assert rest[1..] == close[1..] + after;
    assert st.(hadConsonant := false) == st;
    RunUnfolds(rest, tm, o, st);
  }

  /** The first character of a region is copied, and the remaining windows still do not close it. */
  lemma SgmlRegionStep(region: string, rest: string, tm: TMap, o: Options, st: RomanState)
    requires 0 < |region| && st.skippingSgml && !st.hadConsonant && 0 < tm.maxTokenLength
    requires NoCloseBefore(region + rest, |region|, tm, o)
    ensures RomanRun(region + rest, tm, o, st) == Join(Output([region[0]], false), RomanRun(region[1..] + rest, tm, o, st))
    ensures NoCloseBefore(region[1..] + rest, |region| - 1, tm, o)
  {
    var whole := region + rest;
    var tail := region[1..];
    assert forall n | 1 <= n <= Min(tm.maxTokenLength, |whole|) :: whole[..n] == whole[0..n];
    SgmlStep(whole, tm, o, st, 0);
    assert whole[0] == region[0];
    assert whole[1..] == tail + rest;
    RunUnfolds(whole, tm, o, st);
    forall p, q | 0 <= p < |tail| && p < q <= |tail + rest| && q - p <= tm.maxTokenLength
      ensures !ClosesSgml(o, (tail + rest)[p..q])
    {
      assert (tail + rest)[p..q] == whole[p + 1..q + 1];
    }
  }

  // ---------------------------------------------------------------------
  // The source's token buffer
  // ---------------------------------------------------------------------

  /** The prefix loop sees only the first maxTokenLength characters of the remaining input. */
  lemma {:induction false} ScanFromWindow(rest: string, tm: TMap, o: Options, st: RomanState, j: nat)
    requires 0 < |rest| && j < tm.maxTokenLength
    ensures ScanFrom(rest[..Min(tm.maxTokenLength, |rest|)], tm, o, st, j) == ScanFrom(rest, tm, o, st, j)
    decreases tm.maxTokenLength - j
  {
    var M := tm.maxTokenLength;
    var w := rest[..Min(M, |rest|)];
    assert w[..Min(M - j, |w|)] == rest[..Min(M - j, |rest|)];
    assert w[0] == rest[0];
    if j < M - 1 {
      var token := rest[..Min(M - j, |rest|)];
      ScanFromWindow(rest, tm, o, st.(skippingSgml := SgmlAfter(o, st.skippingSgml, token)), j + 1);
    }
  }

  /** One pass of the outer loop on non-empty input. */
  lemma RunUnfolds(rest: string, tm: TMap, o: Options, st: RomanState)
    requires 0 < |rest| && 0 < tm.maxTokenLength
    ensures var s := ScanFrom(rest, tm, o, st, 0);
            RomanRun(rest, tm, o, st) == Join(Output(s.emitted, s.usesVirama), RomanRun(rest[s.consumed..], tm, o, s.state))
  {
  }

  /** What the outer loop has appended, joined with the run on what is left, stays the whole run. */
  lemma MatchKeepsRun(data: string, pos: nat, tm: TMap, o: Options, st: RomanState, out: Output)
    requires pos < |data| && 0 < tm.maxTokenLength
    requires Accounted(data, pos, tm, o, st, out)
    ensures var s := ScanFrom(data[pos..], tm, o, st, 0);
            && pos + s.consumed <= |data|
            && (s.usesVirama && |tm.virama| == 0 ==> RomanRun(data, tm, o, Initial).usesVirama)
            && (!(s.usesVirama && |tm.virama| == 0) ==>
                  Accounted(data, pos + s.consumed, tm, o, s.state, Join(out, Output(s.emitted, s.usesVirama))))
  {
    var rest := data[pos..];
    var s := ScanFrom(rest, tm, o, st, 0);
    RunUnfolds(rest, tm, o, st);
    JoinAssociates(out, Output(s.emitted, s.usesVirama), RomanRun(rest[s.consumed..], tm, o, s.state));
    assert rest[s.consumed..] == data[pos + s.consumed..];
  }

  lemma JoinAssociates(a: Output, b: Output, c: Output)
    ensures Join(Join(a, b), c) == Join(a, Join(b, c))
  {
    assert (a.text + b.text) + c.text == a.text + (b.text + c.text);
  }

  /**
   * The outer loop's bookkeeping: the text appended so far followed by the
   * run on the unconsumed input is the run on the whole input, and no
   * virama has been needed from an empty group yet.
   */
  ghost predicate Accounted(data: string, pos: nat, tm: TMap, o: Options, st: RomanState, out: Output) {
    && pos <= |data|
    && Join(out, RomanRun(data[pos..], tm, o, st)) == RomanRun(data, tm, o, Initial)
    && (|tm.virama| == 0 ==> !out.usesVirama)
  }

  /**
   * One run of the prefix loop on a full buffer (or on the whole remaining
   * input), with the matched characters then deleted from its front.
   * `failed` is the exception `virama[0]` raises on an empty virama group.
   */
  method MatchBuffer(ghost data: string, ghost pos: nat, buf: string, tm: TMap, o: Options, st: RomanState, out: Output)
    returns (failed: bool, buf': string, ghost pos': nat, st': RomanState, out': Output)
    requires 0 < tm.maxTokenLength && pos < |data|
    requires buf == data[pos..][..Min(tm.maxTokenLength, |data| - pos)]
    requires Accounted(data, pos, tm, o, st, out)
    ensures failed ==> |tm.virama| == 0 && RomanRun(data, tm, o, Initial).usesVirama
    ensures !failed ==>
              && pos < pos' && pos' + |buf'| == pos + |buf|
              && buf' == data[pos'..pos' + |buf'|]
              && Accounted(data, pos', tm, o, st', out')
  {
    ghost var rest := data[pos..];
    ScanFromWindow(rest, tm, o, st, 0);
    var s := ScanFrom(buf, tm, o, st, 0);
    assert s == ScanFrom(rest, tm, o, st, 0);
    MatchKeepsRun(data, pos, tm, o, st, out);
    if s.usesVirama && |tm.virama| == 0 {
      return true, buf, pos, st, out;
    }
    failed := false;
    out' := Join(out, Output(s.emitted, s.usesVirama));
    buf' := buf[s.consumed..];
    pos' := pos + s.consumed;
    st' := s.state;
  }

  lemma BufferGrows(data: string, pos: nat, buf: string, i: nat)
    requires pos + |buf| == i < |data| && buf == data[pos..i]
    ensures buf + [data[i]] == data[pos..i + 1]
  {
  }

  /** A buffer that is full, or holds the rest of the input, is the prefix loop's window. */
  lemma BufferIsWindow(data: string, pos: nat, buf: string, M: nat)
    requires pos + |buf| <= |data| && buf == data[pos..pos + |buf|] && |buf| <= M
    requires |buf| == M || pos + |buf| == |data|
    ensures buf == data[pos..][..Min(M, |data| - pos)]
  {
  }

  /**
   * The `while` loop's invariant: the buffer holds the input characters from
   * `pos` up to `i`, at most maxTokenLength of them, never full while input
   * remains to be read, and the outer-loop bookkeeping holds.
   */
  ghost predicate Buffered(data: string, tm: TMap, o: Options, i: nat, pos: nat, buf: string, st: RomanState, out: Output) {
    var M := tm.maxTokenLength;
    && pos + |buf| <= |data|
    && |buf| <= M
    && buf == data[pos..pos + |buf|]
    && (M > 0 ==> pos + |buf| == Min(i, |data|))
    && (M > 0 && i < |data| ==> |buf| < M)
    && (M == 0 ==> pos == 0 && st == Initial && out == Output("", false))
    && Accounted(data, pos, tm, o, st, out)
  }

  /**
   * One pass of the `while` loop: append the next input character to the
   * buffer, and when the buffer is full (or the input is used up) run the
   * prefix loop on it. Either the unconsumed input shrinks, or it stays and
   * one more character has been read.
   */
  method BufferPass(ghost data: string, d: string, tm: TMap, o: Options, i: nat, ghost pos: nat, buf: string, st: RomanState, out: Output)
    returns (failed: bool, i': nat, ghost pos': nat, buf': string, st': RomanState, out': Output)
    requires d == data && (i < |data| || |buf| > 0)
    requires Buffered(data, tm, o, i, pos, buf, st, out)
    ensures failed ==> |tm.virama| == 0 && RomanRun(data, tm, o, Initial).usesVirama
    ensures !failed ==> Buffered(data, tm, o, i', pos', buf', st', out')
    ensures !failed ==> pos < pos' || (pos == pos' && i < i' <= |data|)
  {
    var M := tm.maxTokenLength;
    failed, i', pos', buf', st', out' := false, i, pos, buf, st, out;
    var difference := M - |buf|;
    if difference > 0 && i < |d| {
      BufferGrows(data, pos, buf, i);
      buf' := buf + [d[i]];
      if difference > 1 {
        return false, i + 1, pos, buf', st, out;
      }
    }
    if M > 0 {
      BufferIsWindow(data, pos, buf', M);
      failed, buf', pos', st', out' := MatchBuffer(data, pos, buf', tm, o, st, out);
    }
    i' := i + 1;
  }

  /**
   * `transliterateRoman` with the source's buffer discipline: each pass of
   * the `while` loop appends one input character to the buffer, and only
   * once the buffer holds maxTokenLength characters (or the input is used
   * up) is the prefix loop run on it and the matched characters deleted from
   * its front. With maxTokenLength 0 nothing is ever buffered.
   */
  method TransliterateRomanBuffered(data: string, tm: TMap, o: Options) returns (r: Result<string, RomanError>)
    ensures r == TransliterateRoman(data, tm, o)
  {
    var buf := "";
    var out := Output("", false);
    var st := Initial;
    var i: nat := 0;
    ghost var pos: nat := 0;
    while i < |data| || |buf| > 0
      invariant Buffered(data, tm, o, i, pos, buf, st, out)
      decreases |data| - pos, |data| - i
    {
      var failed;
      failed, i, pos, buf, st, out := BufferPass(data, data, tm, o, i, pos, buf, st, out);
      if failed {
        return Failure(ViramaIndexOutOfBounds);
      }
    }
    var fin := Finish(tm, o, st.hadConsonant);
    assert RomanRun(data[pos..], tm, o, st) == fin;
    if fin.usesVirama && |tm.virama| == 0 {
      return Failure(ViramaIndexOutOfBounds);
    }
    r := Success(out.text + fin.text);
  }
}
