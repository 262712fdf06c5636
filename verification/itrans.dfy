/**
 * The rewriting applied to ITRANS input before transliteration.
 *
 * Three regular-expression replacements run in order: every "{\m+}" becomes
 * ".h.N", every ".h" is deleted, and a backslash followed by any character
 * other than ', ` or _ (or by the end of the input) is wrapped in "##" so
 * that the character passes through untransliterated. The first two
 * patterns are plain literals, so they are modelled as literal
 * replace-all: a left-to-right scan that replaces each occurrence and
 * resumes after it.
 */
module Itrans {
  import opened Wrappers

  /** Literal replace-all: scan left to right, replacing each occurrence and resuming after it. */
  function ReplaceAll(s: string, pat: string, rep: string): string
    requires |pat| > 0
    decreases |s|
  {
    if |s| == 0 then ""
    else if pat <= s then rep + ReplaceAll(s[|pat|..], pat, rep)
    else [s[0]] + ReplaceAll(s[1..], pat, rep)
  }

  /** `pat` occurs in `s` starting at index i. */
  predicate OccursAt(s: string, pat: string, i: nat) {
    i + |pat| <= |s| && s[i..i + |pat|] == pat
  }

  /** `pat` occurs somewhere inside `s`. */
  predicate Occurs(s: string, pat: string) {
    exists i | 0 <= i <= |s| :: OccursAt(s, pat, i)
  }

  /** Prepends a character to the first piece. */
  function AddToFirst(c: char, parts: seq<string>): seq<string>
    requires |parts| > 0
  {
    [[c] + parts[0]] + parts[1..]
  }

  /** The pieces between the occurrences the same scan finds (always at least one piece). */
  function Split(s: string, pat: string): (parts: seq<string>)
    requires |pat| > 0
    ensures |parts| > 0
    decreases |s|
  {
    if |s| == 0 then [""]
    else if pat <= s then [""] + Split(s[|pat|..], pat)
    else AddToFirst(s[0], Split(s[1..], pat))
  }

  /** The pieces joined with `sep` between neighbours. */
  function Intercalate(parts: seq<string>, sep: string): string
    requires |parts| > 0
  {
    if |parts| == 1 then parts[0] else parts[0] + sep + Intercalate(parts[1..], sep)
  }

  lemma IntercalateAddToFirst(c: char, parts: seq<string>, sep: string)
    requires |parts| > 0
    ensures Intercalate(AddToFirst(c, parts), sep) == [c] + Intercalate(parts, sep)
  {
    var p := AddToFirst(c, parts);
    if |parts| > 1 {
      assert p[1..] == parts[1..];
    }
  }

  /** Splitting at the occurrences and joining with the pattern gives the input back. */
  lemma {:induction false} SplitRoundTrip(s: string, pat: string)
    requires |pat| > 0
    ensures Intercalate(Split(s, pat), pat) == s
    decreases |s|
  {
    if |s| > 0 {
      if pat <= s {
        SplitRoundTrip(s[|pat|..], pat);
        var parts := [""] + Split(s[|pat|..], pat);
        assert parts[1..] == Split(s[|pat|..], pat);
        assert s == pat + s[|pat|..];
      } else {
        SplitRoundTrip(s[1..], pat);
        IntercalateAddToFirst(s[0], Split(s[1..], pat), pat);
        assert s == [s[0]] + s[1..];
      }
    }
  }

  /** Replace-all is the same split joined with the replacement instead. */
  lemma {:induction false} ReplaceAllIsSplitJoin(s: string, pat: string, rep: string)
    requires |pat| > 0
    ensures ReplaceAll(s, pat, rep) == Intercalate(Split(s, pat), rep)
    decreases |s|
  {
    if |s| > 0 {
      if pat <= s {
        ReplaceAllIsSplitJoin(s[|pat|..], pat, rep);
        var parts := [""] + Split(s[|pat|..], pat);
        assert parts[1..] == Split(s[|pat|..], pat);
      } else {
        ReplaceAllIsSplitJoin(s[1..], pat, rep);
        IntercalateAddToFirst(s[0], Split(s[1..], pat), rep);
      }
    }
  }

  /** A string in which the pattern never occurs is left alone. */
  lemma {:induction false} ReplaceAllWithoutOccurrence(s: string, pat: string, rep: string)
    requires |pat| > 0 && !Occurs(s, pat)
    ensures ReplaceAll(s, pat, rep) == s
    decreases |s|
  {
    if |s| > 0 {
      if pat <= s {
        assert OccursAt(s, pat, 0);
        assert false;
      }
      assert !Occurs(s[1..], pat) by {
        forall i | 0 <= i <= |s[1..]| ensures !OccursAt(s[1..], pat, i) {
          if i + |pat| <= |s[1..]| {
            assert s[1..][i..i + |pat|] == s[i + 1..i + 1 + |pat|];
            assert !OccursAt(s, pat, i + 1);
          }
        }
      }
      ReplaceAllWithoutOccurrence(s[1..], pat, rep);
      assert s == [s[0]] + s[1..];
    }
  }

  /** The pieces between occurrences contain no occurrence themselves. */
  lemma {:induction false} SplitPiecesFree(s: string, pat: string)
    requires |pat| > 0
    ensures forall k | 0 <= k < |Split(s, pat)| :: !Occurs(Split(s, pat)[k], pat)
    decreases |s|
  {
    FirstPieceFree(s, pat);
    if |s| > 0 {
      if pat <= s {
        SplitPiecesFree(s[|pat|..], pat);
        var parts := [""] + Split(s[|pat|..], pat);
        assert forall k | 1 <= k < |parts| :: parts[k] == Split(s[|pat|..], pat)[k - 1];
      } else {
        SplitPiecesFree(s[1..], pat);
        var rest := Split(s[1..], pat);
        var parts := AddToFirst(s[0], rest);
        assert forall k | 1 <= k < |parts| :: parts[k] == rest[k];
      }
    }
  }

  /** The first piece of the split contains no occurrence of the pattern. */
  lemma {:induction false} FirstPieceFree(s: string, pat: string)
    requires |pat| > 0
    ensures !Occurs(Split(s, pat)[0], pat)
    decreases |s|
  {
    if |s| > 0 && !(pat <= s) {
      var first := Split(s, pat)[0];
      var first' := Split(s[1..], pat)[0];
      assert first == [s[0]] + first';
      FirstPieceFree(s[1..], pat);
      PieceIsPrefix(s, pat);
      forall i | 0 <= i <= |first| ensures !OccursAt(first, pat, i) {
        if i == 0 {
          assert |pat| <= |first| ==> s[..|pat|] == first[..|pat|];
        } else if i + |pat| <= |first| {
          assert first[i..i + |pat|] == first'[i - 1..i - 1 + |pat|];
          assert !OccursAt(first', pat, i - 1);
        }
      }
    }
  }

  /** The first piece of the split is a prefix of the input. */
  lemma {:induction false} PieceIsPrefix(s: string, pat: string)
    requires |pat| > 0
    ensures Split(s, pat)[0] <= s
    decreases |s|
  {
    if |s| > 0 && !(pat <= s) {
      PieceIsPrefix(s[1..], pat);
    }
  }

  /** The characters ' ` and _ after a backslash are ITRANS accents, not escapes. */
  predicate IsAccent(c: char) {
    c == '\'' || c == '`' || c == '_'
  }

  /**
   * The replacement of `\\([^'`_]|$)` by `##$1##`: a backslash and the
   * character after it (if any, and if it is not an accent) become that
   * character between two "##". The scan resumes after the match.
   */
  function EscapeBackslashes(s: string): string
    decreases |s|
  {
    if |s| == 0 then ""
    else if s[0] == '\\' && |s| == 1 then "####"
    else if s[0] == '\\' && !IsAccent(s[1]) then "##" + [s[1]] + "##" + EscapeBackslashes(s[2..])
    else [s[0]] + EscapeBackslashes(s[1..])
  }

  /** The three replacements that `t` applies to ITRANS input, in order. */
  function ItransPrepass(s: string): string {
    EscapeBackslashes(ReplaceAll(ReplaceAll(s, "{\\m+}", ".h.N"), ".h", ""))
  }

  predicate NoBackslash(s: string) {
    forall i | 0 <= i < |s| :: s[i] != '\\'
  }

  /** Without backslashes the escape pass changes nothing. */
  lemma {:induction false} EscapeWithoutBackslash(s: string)
    requires NoBackslash(s)
    ensures EscapeBackslashes(s) == s
    decreases |s|
  {
    if |s| > 0 {
      assert NoBackslash(s[1..]) by {
        forall i | 0 <= i < |s[1..]| ensures s[1..][i] != '\\' {
          assert s[1..][i] == s[i + 1];
        }
      }
      EscapeWithoutBackslash(s[1..]);
      assert s == [s[0]] + s[1..];
    }
  }

  /**
   * The escape pass works piece by piece: it distributes over a
   * concatenation whose left part does not end in a backslash.
   */
  lemma {:induction false} EscapeDistributes(a: string, b: string)
    requires |a| == 0 || a[|a| - 1] != '\\'
    ensures EscapeBackslashes(a + b) == EscapeBackslashes(a) + EscapeBackslashes(b)
    decreases |a|
  {
    if |a| == 0 {
      assert a + b == b;
    } else if a[0] == '\\' && !IsAccent(a[1]) {
      var a' := a[2..];
      assert |a'| == 0 || a'[|a'| - 1] == a[|a| - 1];
      EscapePairFirst(a, b);
      EscapeDistributes(a', b);
      ConcatAssociates("##" + [a[1]] + "##", EscapeBackslashes(a'), EscapeBackslashes(b));
    } else {
      var a' := a[1..];
      assert |a'| == 0 || a'[|a'| - 1] == a[|a| - 1];
      EscapeCharFirst(a, b);
      EscapeDistributes(a', b);
      ConcatAssociates([a[0]], EscapeBackslashes(a'), EscapeBackslashes(b));
    }
  }

  /** The escape pass on a concatenation whose left part opens with an escape pair. */
  lemma EscapePairFirst(a: string, b: string)
    requires 2 <= |a| && a[0] == '\\' && !IsAccent(a[1])
    ensures EscapeBackslashes(a + b) == "##" + [a[1]] + "##" + EscapeBackslashes(a[2..] + b)
    ensures EscapeBackslashes(a) == "##" + [a[1]] + "##" + EscapeBackslashes(a[2..])
  {
    var ab := a + b;
    assert ab[0] == a[0] && ab[1] == a[1];
    assert ab[2..] == a[2..] + b;
  }

  /** The escape pass on a concatenation whose left part opens with a character it copies. */
  lemma EscapeCharFirst(a: string, b: string)
    requires 0 < |a| && a[|a| - 1] != '\\'
    requires !(a[0] == '\\' && !IsAccent(a[1]))
    ensures EscapeBackslashes(a + b) == [a[0]] + EscapeBackslashes(a[1..] + b)
    ensures EscapeBackslashes(a) == [a[0]] + EscapeBackslashes(a[1..])
  {
    var ab := a + b;
    assert ab[0] == a[0];
    if a[0] == '\\' {
      assert ab[1] == a[1];
    }
    assert ab[1..] == a[1..] + b;
  }

  /** An escaped character comes out between two "##", which switch transliteration off around it. */
  lemma EscapeWraps(c: char, rest: string)
    requires !IsAccent(c)
    ensures EscapeBackslashes(['\\', c] + rest) == "##" + [c] + "##" + EscapeBackslashes(rest)
  {
    assert (['\\', c] + rest)[2..] == rest;
  }

  /** A backslash at the very end becomes "####", two empty toggles. */
  lemma EscapeTrailingBackslash(s: string)
    requires |s| == 0 || s[|s| - 1] != '\\'
    ensures EscapeBackslashes(s + "\\") == EscapeBackslashes(s) + "####"
  {
    EscapeDistributes(s, "\\");
  }

  /**
   * ITRANS input that opens with an escape and holds neither "{\m+}" nor
   * ".h": the prepass wraps the escaped character in "##" and rewrites only
   * the rest after it.
   */
  lemma PrepassEscapeAtFront(c: char, rest: string)
    requires !IsAccent(c)
    requires !Occurs(['\\', c] + rest, "{\\m+}") && !Occurs(['\\', c] + rest, ".h")
    ensures ItransPrepass(['\\', c] + rest) == "##" + [c] + "##" + EscapeBackslashes(rest)
  {
    ReplaceAllWithoutOccurrence(['\\', c] + rest, "{\\m+}", ".h.N");
    ReplaceAllWithoutOccurrence(['\\', c] + rest, ".h", "");
    EscapeWraps(c, rest);
  }

  /**
   * ITRANS input without backslashes or ".h" is left alone by the prepass,
   * and a backslash after it becomes "####".
   */
  lemma PrepassTrailingBackslash(s: string)
    requires NoBackslash(s) && !Occurs(s, ".h")
    ensures ItransPrepass(s) == s
    ensures ItransPrepass(s + "\\") == s + "####"
  {
    var t := s + "\\";
    forall i | 0 <= i <= |s| ensures !OccursAt(s, "{\\m+}", i) {
      if i + 5 <= |s| {
        assert s[i..i + 5][1] == s[i + 1];
      }
    }
    forall i | 0 <= i <= |t| ensures !OccursAt(t, "{\\m+}", i) && !OccursAt(t, ".h", i) {
      if i + 5 <= |t| {
        assert t[i..i + 5][1] == t[i + 1] == s[i + 1];
      }
      if i + 2 <= |s| {
        assert t[i..i + 2] == s[i..i + 2];
        assert !OccursAt(s, ".h", i);
      } else if i + 2 <= |t| {
        assert t[i..i + 2][1] == t[|s|] == '\\';
      }
    }
    ReplaceAllWithoutOccurrence(s, "{\\m+}", ".h.N");
    ReplaceAllWithoutOccurrence(s, ".h", "");
    ReplaceAllWithoutOccurrence(t, "{\\m+}", ".h.N");
    ReplaceAllWithoutOccurrence(t, ".h", "");
    EscapeWithoutBackslash(s);
    EscapeTrailingBackslash(s);
  }

  /** "{\m+}" ends up as ".N": the ".h" the first replacement writes is removed by the second. */
  lemma MPlusBecomesDotN()
    ensures ItransPrepass("{\\m+}") == ".N"
  {
    assert "{\\m+}" <= "{\\m+}";
    assert ReplaceAll("{\\m+}", "{\\m+}", ".h.N") == ".h.N";
    assert ".h" <= ".h.N";
    assert ".h.N"[2..] == ".N";
    assert ".N"[1] != ".h"[1];
    assert ".N"[1..] == "N";
    assert ReplaceAll(".N", ".h", "") == ".N";
    assert ReplaceAll(".h.N", ".h", "") == ".N";
    assert EscapeBackslashes(".N") == ".N";
  }

  /** One left-to-right pass can leave an occurrence behind: "..hh" loses one ".h" and becomes ".h". */
  lemma DeletionIsSinglePass()
    ensures ReplaceAll("..hh", ".h", "") == ".h"
    ensures Occurs(ReplaceAll("..hh", ".h", ""), ".h")
  {
    assert "..hh"[1] != ".h"[1];
    assert "..hh"[1..] == ".hh";
    assert ".h" <= ".hh";
    assert ".hh"[2..] == "h";
    assert "h"[0] != ".h"[0];
    assert ReplaceAll("h", ".h", "") == "h";
    var r := ReplaceAll("..hh", ".h", "");
    assert r == ".h";
    assert OccursAt(r, ".h", 0);
  }
}
