# Sanscript transliteration engine in Dafny

This project models the engine of the Kotlin port of Sanscript
(`src/commonMain/kotlin/com/wellebee/sanskrit/Sanscript.kt`), which
transliterates Sanskrit between scripts. The model covers these parts, in
the program's own terms:

- **Scheme registry.** It holds named *schemes* (group name → ordered
  grapheme list). A scheme is either *Brahmic* (an abugida with an inherent
  "a") or *roman*. `addRomanScheme` synthesises a missing `vowel_marks`
  group from `vowels` without its first entry (`withoutFirst`).
- **`makeMap`.** It compiles a scheme pair into a `TMap`:
  - the `letters`, `marks` and `consonants` lookup tables;
  - the destination's `virama` group;
  - `maxTokenLength`.

  It pairs positions of groups the two schemes share. Alternate spellings
  of a source grapheme get the same target.
- **`transliterateRoman`.** It transliterates from a roman scheme with
  greedy longest-match tokenisation over a token buffer and the
  inherent-vowel rules (marks after a consonant, viramas, syncope). SGML
  skipping and "##" toggles switch transliteration off.
- **`transliterateBrahmic`.** It transliterates from a Brahmic scheme one
  character at a time. Towards roman it writes out the inherent "a"; it
  also handles '#' toggles.
- **`t`.** The entry point. It holds a one-entry cache of the last map, and
  rewrites ITRANS input first (the three `replace` calls).

Modules:

| module | file | contents |
|---|---|---|
| `Wrappers` | `wrappers.dfy` | `Option`, `Result`, small helpers |
| `Config` | `options.dfy` | `Options` and its data-class equality |
| `Schemes` | `schemes.dfy` | scheme lookup, registry operations |
| `MapBuilder` | `mapbuilder.dfy` | `makeMap` as an ordered write list folded into tables |
| `RomanSource` | `roman.dfy` | the roman loop, a reference tokenizer/renderer, the buffered method |
| `BrahmicSource` | `brahmic.dfy` | the Brahmic loop and reference readings |
| `Itrans` | `itrans.dfy` | the ITRANS rewriting |
| `Facade` | `facade.dfy` | `t` with the cache threaded explicitly |
| `Fixtures` | `fixtures.dfy` | a worked example on a slice of Harvard-Kyoto → Devanagari |

Exceptions are values:

- `makeMap` → `BuildError`: unknown scheme, a destination group that is
  too short, no shared grapheme, or a destination without a "virama" group.
- `virama[0]` on an empty virama group → `RomanError`.
- `scheme["vowels"]!!` in `addRomanScheme` → `RegistrationError`.

Behaviour of the code that the model keeps on purpose:

- **Options compare by identity.** `Options` is a data class whose
  `skipStarters`/`skipEnds` fields are arrays. Its generated `equals`
  compares them by identity, not by content. So the cache hits only when
  the caller passes the very option object it passed before. With no cached
  options the comparison is against a freshly allocated `Options()`, which
  never matches.
- **Stale cache.** On a hit, the cache is used without consulting the
  registry.
- **Empty virama group.** It fails only when `virama[0]` is actually
  needed.
- **`maxTokenLength` of 0.** Every character is read and nothing is
  written.
- **Brahmic lookups are single-character.** Table keys longer than one
  character are never found.
- **The ITRANS rewriting is single-pass.**
  - `{\m+}` first becomes `.h.N`, and the `.h` that rewrite writes is
    deleted by the next one, leaving `.N`.
  - The deletion of `.h` is one left-to-right pass, so `..hh` becomes
    `.h`.
- **Token-buffer `delete(0, n)` drops the first n characters.** This is
  the JVM `StringBuilder` member, which takes precedence over the
  file-private extension of the same name at the end of the file.

## Model

| member | source | states |
|---|---|---|
| Config.DefaultOptions | src/commonMain/kotlin/com/wellebee/sanskrit/Sanscript.kt:40-45 | the default options: no SGML skipping, no syncope, starters `["["]`, ends `["]"]` |
| Config.FreshDefaultsDiffer | src/commonMain/kotlin/com/wellebee/sanskrit/Sanscript.kt:40-45 | two default option objects with separately allocated arrays have equal contents yet are not equal |
| Schemes.FindGroup | src/commonMain/kotlin/com/wellebee/sanskrit/Sanscript.kt:980 | a group lookup is absent exactly when no group has the name, else it yields the first group with that name |
| Schemes.PutGroupFinds | src/commonMain/kotlin/com/wellebee/sanskrit/Sanscript.kt:925-927 | after storing a group, its name yields the new graphemes and every other name what it yielded before |
| Schemes.PutGroupKeepsOthers | src/commonMain/kotlin/com/wellebee/sanskrit/Sanscript.kt:925-927 | storing a group changes the lookup of no other group |
| Schemes.PutGroupKeepsNames | src/commonMain/kotlin/com/wellebee/sanskrit/Sanscript.kt:925-927 | replacing an existing group keeps the group order of the insertion-ordered map |
| Schemes.PutGroupAppends | src/commonMain/kotlin/com/wellebee/sanskrit/Sanscript.kt:925-927 | a new group is appended at the end of the insertion order |
| Schemes.WithoutFirst | src/commonMain/kotlin/com/wellebee/sanskrit/Sanscript.kt:25-27 | every element but the first, index-shifted by one; empty stays empty |
| Schemes.WithoutFirstRestores | src/commonMain/kotlin/com/wellebee/sanskrit/Sanscript.kt:25-27 | putting the first element back in front gives the array back |
| Schemes.AddBrahmicScheme | src/commonMain/kotlin/com/wellebee/sanskrit/Sanscript.kt:911-913 | stores the scheme under its name, keeps every other scheme, and makes no name roman |
| Schemes.WithRomanMarksGroups | src/commonMain/kotlin/com/wellebee/sanskrit/Sanscript.kt:924-930 | the stored scheme has "vowel_marks" (given, or "vowels" without the inherent "a") and every other group unchanged; it fails only without both groups |
| Schemes.AddRomanScheme | src/commonMain/kotlin/com/wellebee/sanskrit/Sanscript.kt:924-930 | fails exactly when the scheme has neither "vowel_marks" nor "vowels"; otherwise marks the name roman, stores the scheme with its synthesised marks, and changes nothing else |
| Schemes.RomanIffRegisteredRoman | src/commonMain/kotlin/com/wellebee/sanskrit/Sanscript.kt:888-930 | after a run of registrations a name is roman exactly when it was before or was passed to addRomanScheme |
| MapBuilder.GroupWrites | src/commonMain/kotlin/com/wellebee/sanskrit/Sanscript.kt:981-1006 | every assignment made while walking a group is tagged with that group |
| MapBuilder.SchemeWritesSucceedsIffFits | src/commonMain/kotlin/com/wellebee/sanskrit/Sanscript.kt:979-983 | the walk over the source scheme fails exactly when some shared group is shorter in the destination |
| MapBuilder.SchemeWritesFailure | src/commonMain/kotlin/com/wellebee/sanskrit/Sanscript.kt:979-983 | the failure names a shared source group whose destination group is too short |
| MapBuilder.MaxKeyLength | src/commonMain/kotlin/com/wellebee/sanskrit/Sanscript.kt:985-988 | the maximum recorded token length bounds every written key and is attained by one |
| MapBuilder.MakeMap | src/commonMain/kotlin/com/wellebee/sanskrit/Sanscript.kt:971-1018 | an unknown source scheme fails first; an unknown destination fails as soon as the loop dereferences it, or at the empty `max()` when the source scheme has no groups; on success the flags are the schemes' roman status and virama is the destination's "virama" group |
| MapBuilder.MakeMapSucceedsIff | src/commonMain/kotlin/com/wellebee/sanskrit/Sanscript.kt:971-1018 | makeMap returns a map exactly when both schemes exist, shared groups fit, some grapheme is shared and the destination has a "virama" group |
| MapBuilder.MakeMapTablesBounded | src/commonMain/kotlin/com/wellebee/sanskrit/Sanscript.kt:985-1013 | every table key is at most maxTokenLength long and every consonant key is a letter key |
| MapBuilder.FillKeys | src/commonMain/kotlin/com/wellebee/sanskrit/Sanscript.kt:989-1005 | a key is in a table exactly when some assignment into that table wrote it |
| MapBuilder.FillLastWriteWins | src/commonMain/kotlin/com/wellebee/sanskrit/Sanscript.kt:989-1005 | a key holds the value of the last assignment to it |
| MapBuilder.FillAgreeing | src/commonMain/kotlin/com/wellebee/sanskrit/Sanscript.kt:989-1005 | a key that every assignment gives the same value holds that value |
| MapBuilder.ConsonantKeysAreLetterKeys | src/commonMain/kotlin/com/wellebee/sanskrit/Sanscript.kt:994-1004 | every consonant key is also a letter key |
| MapBuilder.TableKeysBounded | src/commonMain/kotlin/com/wellebee/sanskrit/Sanscript.kt:985-1005 | no key of any table is longer than the longest recorded token |
| MapBuilder.GroupWriteAt | src/commonMain/kotlin/com/wellebee/sanskrit/Sanscript.kt:981-1005 | each spelling of source position i is assigned destination entry i |
| MapBuilder.GroupWriteOrigin | src/commonMain/kotlin/com/wellebee/sanskrit/Sanscript.kt:981-1005 | each assignment of a group comes from a spelling of some position i, with destination entry i |
| MapBuilder.SchemeWriteOrigin | src/commonMain/kotlin/com/wellebee/sanskrit/Sanscript.kt:979-1007 | each assignment of the walk comes from a spelling of a position of a shared group |
| MapBuilder.WritesComeFromPositions | src/commonMain/kotlin/com/wellebee/sanskrit/Sanscript.kt:979-1007 | the walk assigns nothing but positional pairs |
| MapBuilder.PositionsAreWritten | src/commonMain/kotlin/com/wellebee/sanskrit/Sanscript.kt:979-1007 | every spelling of every position of every shared group is assigned its destination entry |
| MapBuilder.WritesNonEmptyIffShared | src/commonMain/kotlin/com/wellebee/sanskrit/Sanscript.kt:979-1013 | the walk assigns something exactly when the schemes share a non-empty group |
| MapBuilder.AbsentGroupContributesNothing | src/commonMain/kotlin/com/wellebee/sanskrit/Sanscript.kt:980 | a source group the destination lacks can be removed without changing the walk |
| MapBuilder.SharedPositionIsKey | src/commonMain/kotlin/com/wellebee/sanskrit/Sanscript.kt:979-1017 | every spelling of a shared position is a key of each table its group feeds |
| MapBuilder.WalkPositionValue | src/commonMain/kotlin/com/wellebee/sanskrit/Sanscript.kt:989-1005 | an assignment whose key no other assignment contradicts decides the table entry |
| MapBuilder.SharedPositionValue | src/commonMain/kotlin/com/wellebee/sanskrit/Sanscript.kt:979-1017 | a source grapheme at index i maps to the destination grapheme at index i unless another assignment gives its key a different value |
| MapBuilder.AlternatePositionValue | src/commonMain/kotlin/com/wellebee/sanskrit/Sanscript.kt:984-1003 | an alternate spelling maps to the destination grapheme of its canonical position, under the same proviso |
| MapBuilder.WalkAlternateValue | src/commonMain/kotlin/com/wellebee/sanskrit/Sanscript.kt:984-1003 | the same for the walk's assignments |
| MapBuilder.AlternateMapsLikeCanonical | src/commonMain/kotlin/com/wellebee/sanskrit/Sanscript.kt:984-1003 | an alternate and its canonical grapheme get the same table entry |
| MapBuilder.MaxTokenLengthAttained | src/commonMain/kotlin/com/wellebee/sanskrit/Sanscript.kt:985-1013 | maxTokenLength is the length of some spelling of a shared position |
| MapBuilder.SpellingsWithinMaxTokenLength | src/commonMain/kotlin/com/wellebee/sanskrit/Sanscript.kt:985-1013 | every spelling of every shared position is at most maxTokenLength long |
| RomanSource.ScanFrom | src/commonMain/kotlin/com/wellebee/sanskrit/Sanscript.kt:1065-1113 | one run of the prefix loop consumes between 1 and maxTokenLength-j characters, never opens SGML when skipping is off, and towards roman never needs a virama |
| RomanSource.RomanRun | src/commonMain/kotlin/com/wellebee/sanskrit/Sanscript.kt:1054-1118 | towards roman, the outer loop never needs a virama |
| RomanSource.TransliterateRoman | src/commonMain/kotlin/com/wellebee/sanskrit/Sanscript.kt:1028-1120 | with maxTokenLength 0 the result is empty; it fails only when towards Brahmic with an empty virama group |
| RomanSource.LongestKey | src/commonMain/kotlin/com/wellebee/sanskrit/Sanscript.kt:1065-1066 | the longest prefix within the bound that is a key, and none exists exactly when no such prefix is a key |
| RomanSource.NextToken | src/commonMain/kotlin/com/wellebee/sanskrit/Sanscript.kt:1065-1101 | the next token is a non-empty prefix of the input; a key token is a key within the bound |
| RomanSource.Tokenize | src/commonMain/kotlin/com/wellebee/sanskrit/Sanscript.kt:1054-1115 | the tokens spell the input back exactly and every key token is a letters key |
| RomanSource.ScanFromIsLongestKey | src/commonMain/kotlin/com/wellebee/sanskrit/Sanscript.kt:1065-1113 | outside toggled and SGML regions, where no prefix within the bound is "<" or a starter (or skipSgml is off), the prefix loop takes the longest key, else copies one character |
| RomanSource.PlainScanMatches | src/commonMain/kotlin/com/wellebee/sanskrit/Sanscript.kt:1065-1100 | under the same conditions a prefix that is a key is the token the loop takes |
| RomanSource.PlainScanMovesOn | src/commonMain/kotlin/com/wellebee/sanskrit/Sanscript.kt:1065-1101 | under the same conditions a prefix that is not a key moves the loop to the next shorter prefix |
| RomanSource.PlainScanFallsBack | src/commonMain/kotlin/com/wellebee/sanskrit/Sanscript.kt:1065-1110 | under the same conditions, with no key found, the last iteration copies the first character |
| RomanSource.LongestKeySkips | src/commonMain/kotlin/com/wellebee/sanskrit/Sanscript.kt:1065-1066 | a bound whose own prefix is not a key can be lowered by one |
| RomanSource.PlainRunIsRender | src/commonMain/kotlin/com/wellebee/sanskrit/Sanscript.kt:1054-1118 | on text without '#' in which no window of the loop opens an SGML region (any text when skipSgml is off, the text between tags when it is on), the loop equals greedy tokenisation followed by the inherent-vowel rendering |
| RomanSource.RomanDestinationMapsTokens | src/commonMain/kotlin/com/wellebee/sanskrit/Sanscript.kt:1082-1083 | towards roman, rendering is the token-wise letter mapping without viramas |
| RomanSource.RomanDestinationIsGreedy | src/commonMain/kotlin/com/wellebee/sanskrit/Sanscript.kt:1028-1120 | roman to roman, on text without '#' where no SGML region opens, the result is the letter mapping over the greedy tokens, and succeeds |
| RomanSource.ToggleStep | src/commonMain/kotlin/com/wellebee/sanskrit/Sanscript.kt:1072-1075 | "##" outside SGML flips the toggle, writes nothing and consumes two characters |
| RomanSource.ToggledStep | src/commonMain/kotlin/com/wellebee/sanskrit/Sanscript.kt:1079-1110 | inside a toggled region a step copies one character |
| RomanSource.ToggledRegionVerbatim | src/commonMain/kotlin/com/wellebee/sanskrit/Sanscript.kt:1054-1118 | a toggled region without '#' is copied verbatim |
| RomanSource.SgmlStep | src/commonMain/kotlin/com/wellebee/sanskrit/Sanscript.kt:1065-1110 | inside SGML a step copies one character while no prefix it examines closes the region |
| RomanSource.SgmlRegionVerbatim | src/commonMain/kotlin/com/wellebee/sanskrit/Sanscript.kt:1054-1118 | SGML text that nothing closes is copied verbatim, '#' included |
| RomanSource.SgmlOpensAtAngle | src/commonMain/kotlin/com/wellebee/sanskrit/Sanscript.kt:1070-1071 | with skipSgml a '<' is copied and opens an SGML region when no longer prefix is claimed first |
| RomanSource.SgmlOpensAt | src/commonMain/kotlin/com/wellebee/sanskrit/Sanscript.kt:1065-1110 | with skipSgml, "<" or a skipStarters member at the front opens a region: its first character is copied and the loop is skipping |
| RomanSource.InertFallsBack | src/commonMain/kotlin/com/wellebee/sanskrit/Sanscript.kt:1065-1110 | outside SGML, when every prefix still to be examined is neither "##", nor an opener, nor a key, one character is copied |
| RomanSource.SgmlClosesAt | src/commonMain/kotlin/com/wellebee/sanskrit/Sanscript.kt:1067-1069 | inside SGML, ">" or a skipEnds member at the front closes the region: its first character is copied and the loop is no longer skipping |
| RomanSource.SgmlRegionCloses | src/commonMain/kotlin/com/wellebee/sanskrit/Sanscript.kt:1054-1118 | a whole region and the first character of its closing token come out verbatim, and the loop resumes outside SGML on what follows |
| RomanSource.SgmlTagVerbatim | src/commonMain/kotlin/com/wellebee/sanskrit/Sanscript.kt:1054-1118 | with skipSgml a tag "<…>" comes out verbatim and the text after it is transliterated afresh, as in "<p>nara iti</p>" |
| RomanSource.HashPairToggles | src/commonMain/kotlin/com/wellebee/sanskrit/Sanscript.kt:1072-1075 | when no key or starter begins with '#', "##" outside SGML is always a toggle |
| RomanSource.ToggledCopy | src/commonMain/kotlin/com/wellebee/sanskrit/Sanscript.kt:1079-1110 | inside a toggled region where no SGML region opens, a step copies one character, closing a pending consonant first |
| RomanSource.EscapedCharPasses | src/commonMain/kotlin/com/wellebee/sanskrit/Sanscript.kt:1054-1118 | a character between two "##" is copied and the loop continues untoggled with nothing pending |
| RomanSource.TrailingTogglesWriteNothing | src/commonMain/kotlin/com/wellebee/sanskrit/Sanscript.kt:1054-1118 | "####" at the end writes nothing beyond what the end of input writes |
| RomanSource.TrailingTogglesVanish | src/commonMain/kotlin/com/wellebee/sanskrit/Sanscript.kt:1054-1118 | text without '#' where no SGML region opens reads the same with "####" after it |
| RomanSource.LongestKeyIgnoresTail | src/commonMain/kotlin/com/wellebee/sanskrit/Sanscript.kt:1065-1066 | the longest key prefix does not change when a suffix follows that no key reaches into |
| RomanSource.NextTokenIgnoresTail | src/commonMain/kotlin/com/wellebee/sanskrit/Sanscript.kt:1065-1110 | the greedy token does not change when such a suffix follows |
| RomanSource.ScanFromWindow | src/commonMain/kotlin/com/wellebee/sanskrit/Sanscript.kt:1065-1066 | the prefix loop sees only the first maxTokenLength characters |
| RomanSource.MatchKeepsRun | src/commonMain/kotlin/com/wellebee/sanskrit/Sanscript.kt:1065-1113 | output so far followed by the run on the rest stays the whole run |
| RomanSource.MatchBuffer | src/commonMain/kotlin/com/wellebee/sanskrit/Sanscript.kt:1065-1113 | the prefix loop on the buffer consumes input, keeps the bookkeeping, and fails only where the whole run needs an absent virama |
| RomanSource.BufferPass | src/commonMain/kotlin/com/wellebee/sanskrit/Sanscript.kt:1054-1115 | one pass of the `while` loop keeps the buffer invariant and makes progress |
| RomanSource.TransliterateRomanBuffered | src/commonMain/kotlin/com/wellebee/sanskrit/Sanscript.kt:1028-1120 | the loop with the source's token buffer computes exactly TransliterateRoman |
| BrahmicSource.BrahmicStep | src/commonMain/kotlin/com/wellebee/sanskrit/Sanscript.kt:1140-1181 | only '#' changes the skip flag; a skipped character is copied; a pending "a" is owed only towards roman |
| BrahmicSource.BrahmicDestinationMapsChars | src/commonMain/kotlin/com/wellebee/sanskrit/Sanscript.kt:1130-1187 | towards Brahmic without '#', the output is the per-character replacement, marks first |
| BrahmicSource.PlainRunMapsChars | src/commonMain/kotlin/com/wellebee/sanskrit/Sanscript.kt:1140-1182 | the loop form of BrahmicDestinationMapsChars |
| BrahmicSource.RomanDestinationAddsInherentA | src/commonMain/kotlin/com/wellebee/sanskrit/Sanscript.kt:1130-1187 | towards roman without '#', each consonant not followed by a mark is followed by "a" |
| BrahmicSource.PlainRunReadsRoman | src/commonMain/kotlin/com/wellebee/sanskrit/Sanscript.kt:1140-1185 | the loop form of RomanDestinationAddsInherentA, from any pending state |
| BrahmicSource.MarkReadsRoman | src/commonMain/kotlin/com/wellebee/sanskrit/Sanscript.kt:1159-1162 | a mark absorbs the pending "a" |
| BrahmicSource.LetterReadsRoman | src/commonMain/kotlin/com/wellebee/sanskrit/Sanscript.kt:1163-1180 | a letter writes the pending "a" before itself |
| BrahmicSource.DoubleHashToggles | src/commonMain/kotlin/com/wellebee/sanskrit/Sanscript.kt:1143-1154 | "##" flips transliteration, writes a pending "a" and leaves no hash pending |
| BrahmicSource.SkippedRegionVerbatim | src/commonMain/kotlin/com/wellebee/sanskrit/Sanscript.kt:1155-1158 | a skipped region without '#' is copied verbatim |
| BrahmicSource.LoneHashReappears | src/commonMain/kotlin/com/wellebee/sanskrit/Sanscript.kt:1143-1167 | a single '#' is written back before the next character that is not a mark |
| BrahmicSource.HashWaitsPastMark | src/commonMain/kotlin/com/wellebee/sanskrit/Sanscript.kt:1159-1167 | a mark does not release a held-back '#' |
| BrahmicSource.TrailingHashDropped | src/commonMain/kotlin/com/wellebee/sanskrit/Sanscript.kt:1143-1185 | a '#' at the very end changes nothing |
| Itrans.Split | src/commonMain/kotlin/com/wellebee/sanskrit/Sanscript.kt:1221-1222 | a split always has at least one piece |
| Itrans.SplitRoundTrip | src/commonMain/kotlin/com/wellebee/sanskrit/Sanscript.kt:1221-1222 | joining the pieces with the pattern gives the input back |
| Itrans.ReplaceAllIsSplitJoin | src/commonMain/kotlin/com/wellebee/sanskrit/Sanscript.kt:1221-1222 | literal replace-all is the same split joined with the replacement |
| Itrans.ReplaceAllWithoutOccurrence | src/commonMain/kotlin/com/wellebee/sanskrit/Sanscript.kt:1221-1222 | input without an occurrence is left alone |
| Itrans.SplitPiecesFree | src/commonMain/kotlin/com/wellebee/sanskrit/Sanscript.kt:1221-1222 | no piece between occurrences contains the pattern |
| Itrans.FirstPieceFree | src/commonMain/kotlin/com/wellebee/sanskrit/Sanscript.kt:1221-1222 | the first piece contains no occurrence |
| Itrans.PieceIsPrefix | src/commonMain/kotlin/com/wellebee/sanskrit/Sanscript.kt:1221-1222 | the first piece is a prefix of the input |
| Itrans.IntercalateAddToFirst | src/commonMain/kotlin/com/wellebee/sanskrit/Sanscript.kt:1221-1222 | a character added to the first piece comes first in the join |
| Itrans.EscapeWithoutBackslash | src/commonMain/kotlin/com/wellebee/sanskrit/Sanscript.kt:1223 | text without backslashes is not changed by the escape rewrite |
| Itrans.EscapeDistributes | src/commonMain/kotlin/com/wellebee/sanskrit/Sanscript.kt:1223 | the escape rewrite works piecewise across a boundary not preceded by a backslash |
| Itrans.EscapePairFirst | src/commonMain/kotlin/com/wellebee/sanskrit/Sanscript.kt:1223 | an escape pair at the front becomes the character between "##" |
| Itrans.EscapeCharFirst | src/commonMain/kotlin/com/wellebee/sanskrit/Sanscript.kt:1223 | any other first character is copied |
| Itrans.EscapeWraps | src/commonMain/kotlin/com/wellebee/sanskrit/Sanscript.kt:1223 | a backslash and a non-accent character become that character between "##" |
| Itrans.EscapeTrailingBackslash | src/commonMain/kotlin/com/wellebee/sanskrit/Sanscript.kt:1223 | a final backslash becomes "####" |
| Itrans.PrepassEscapeAtFront | src/commonMain/kotlin/com/wellebee/sanskrit/Sanscript.kt:1220-1224 | ITRANS input opening with "\c" (c not an accent) and holding no "{\m+}" or ".h" becomes "##c##" followed by the rewritten rest |
| Itrans.PrepassTrailingBackslash | src/commonMain/kotlin/com/wellebee/sanskrit/Sanscript.kt:1220-1224 | input without backslashes or ".h" is unchanged by the prepass, and a backslash after it becomes "####" |
| Itrans.MPlusBecomesDotN | src/commonMain/kotlin/com/wellebee/sanskrit/Sanscript.kt:1220-1224 | "{\m+}" comes out of the ITRANS rewriting as ".N" |
| Itrans.DeletionIsSinglePass | src/commonMain/kotlin/com/wellebee/sanskrit/Sanscript.kt:1222 | one pass of the ".h" deletion can leave a ".h" behind |
| Facade.T | src/commonMain/kotlin/com/wellebee/sanskrit/Sanscript.kt:1199-1230 | a hit keeps the cache; a failing build leaves it and reports the error; a successful build overwrites all four fields |
| Facade.EmptyCacheValid | src/commonMain/kotlin/com/wellebee/sanskrit/Sanscript.kt:874-881 | the initial cache is consistent and never hits |
| Facade.CachedEqualsFresh | src/commonMain/kotlin/com/wellebee/sanskrit/Sanscript.kt:1199-1230 | with a consistent cache, t returns what building the map afresh would |
| Facade.CacheStaysValid | src/commonMain/kotlin/com/wellebee/sanskrit/Sanscript.kt:1210-1218 | t keeps the cache consistent with the registry |
| Facade.RepeatHits | src/commonMain/kotlin/com/wellebee/sanskrit/Sanscript.kt:1201-1218 | after a successful build the same call hits |
| Facade.CacheChangesIffRebuilt | src/commonMain/kotlin/com/wellebee/sanskrit/Sanscript.kt:1210-1218 | the cache changes exactly when the map is rebuilt successfully |
| Facade.SeparateOptionsMiss | src/commonMain/kotlin/com/wellebee/sanskrit/Sanscript.kt:1201-1209 | option objects with different arrays never hit each other's entry |
| Facade.HitIgnoresRegistry | src/commonMain/kotlin/com/wellebee/sanskrit/Sanscript.kt:1210-1211 | on a hit the registry is not consulted |
| Facade.RunFailsOnlyOnVirama | src/commonMain/kotlin/com/wellebee/sanskrit/Sanscript.kt:1225-1229 | only the roman transliterator can fail, and only on an empty virama group towards Brahmic |
| Facade.ItransEscapeAtFront | src/commonMain/kotlin/com/wellebee/sanskrit/Sanscript.kt:1220-1226 | an escaped character at the front of ITRANS input is written as it is, and the rest is transliterated on its own |
| Facade.ItransTrailingBackslashVanishes | src/commonMain/kotlin/com/wellebee/sanskrit/Sanscript.kt:1220-1226 | a backslash at the end of ITRANS input disappears from the result |
| Fixtures.LetterStep | src/commonMain/kotlin/com/wellebee/sanskrit/Sanscript.kt:1080-1100 | a one-character key with no longer key before it is one step of the run |
| Fixtures.LiteralStep | src/commonMain/kotlin/com/wellebee/sanskrit/Sanscript.kt:1101-1110 | a character that is no key is copied |
| Fixtures.NaraxitiExample | src/commonMain/kotlin/com/wellebee/sanskrit/Sanscript.kt:1028-1120 | Harvard-Kyoto "naraxiti" becomes न र x इ त ि in Devanagari: "a" absorbed after a consonant, "i" as a vowel mark after one, "x" copied |
| Fixtures.ConsonantThenA | src/commonMain/kotlin/com/wellebee/sanskrit/Sanscript.kt:1084-1100 | a consonant followed by "a" writes the consonant alone and leaves no virama pending |
| Fixtures.NaramExample | src/commonMain/kotlin/com/wellebee/sanskrit/Sanscript.kt:1028-1120 | Harvard-Kyoto "naram" becomes न र म, with a final virama exactly when syncope is off |
| Fixtures.TattvamExample | src/commonMain/kotlin/com/wellebee/sanskrit/Sanscript.kt:1130-1187 | Devanagari "तत्त्वम्" becomes Harvard-Kyoto "tattvam": an inherent "a" after each consonant that no virama follows, including the last |

## Left out

- Scheme data and set-up (`initializeSchemes`, `initializeAlternates`, `initializeSpecialSchemes`, `cheapCopy`): the registry and the alternates are parameters. The example map in `Fixtures` is written by hand.
- Fixtures.HkToDevanagari: written by hand to match what `MakeMap` builds from the two scheme slices, not derived through `MakeMap`; the same holds for Fixtures.DevanagariToHk.
- UTF-16: Kotlin's `Char` is a UTF-16 code unit and Dafny's `char` a Unicode scalar value, so characters outside the Basic Multilingual Plane, which the source splits into two units, are not modelled.
- Regular expressions in general: only the three ITRANS patterns are modelled, written out as the rewrites they perform. `$` before a final line terminator cannot make a difference there, because `[^'`_]` matches that terminator first.
- Aliasing: `addRomanScheme` also writes the synthesised "vowel_marks" into the caller's scheme object. The model returns the stored scheme and does not model the shared mutation.
- The `options` parameter of `makeMap` and of `transliterateBrahmic`: the source never reads it.
- Concurrency: the shared cache is not thread-safe; the model threads it through calls one at a time.
- RomanSource.ScanFromIsLongestKey: requires that the input not start with '#' and that no prefix within the bound open an SGML region, because a "##" prefix is a toggle and an opener starts skipping; those cases are covered by HashPairToggles, SgmlOpensAt and SgmlClosesAt.
- RomanSource.PlainScanMatches: the same two conditions as ScanFromIsLongestKey, for the same reason.
- RomanSource.PlainScanMovesOn: the same two conditions as ScanFromIsLongestKey, for the same reason.
- RomanSource.PlainScanFallsBack: the same two conditions as ScanFromIsLongestKey, for the same reason.
- RomanSource.PlainRunIsRender: stated for text without '#' in which no window of the loop opens an SGML region; a run that enters a region is split at the region by SgmlRegionCloses and SgmlTagVerbatim instead of being given one closed form.
- RomanSource.RomanDestinationIsGreedy: the same conditions as PlainRunIsRender.
- RomanSource.SgmlRegionCloses: requires that the closing token not be a key, because a closing token that is a key is transliterated rather than copied.
- RomanSource.TrailingTogglesVanish: stated for text without '#' where no SGML region opens and no key or starter contains '#'; inside an unclosed SGML region the source copies "####" verbatim.
- Facade.ItransEscapeAtFront: stated for an escape at the front of input without "{\m+}" or ".h"; an escape elsewhere follows from EscapeDistributes and EscapedCharPasses once the run has reached it, which is not stated as one lemma.
- Facade.ItransTrailingBackslashVanishes: stated for input without backslashes, '#' or ".h" before the final backslash.
- MapBuilder.SharedPositionValue: the value is proved only for keys that no other assignment gives a different value, because a later colliding assignment wins (FillLastWriteWins).
