/**
 * Schemes and the scheme registry.
 *
 * A scheme maps group names ("vowels", "vowel_marks", "virama", "consonants",
 * ...) to ordered grapheme lists. The source keeps it in an insertion-ordered
 * mutable map, so a scheme is modelled as a sequence of named groups: the
 * order in which the map builder visits groups is observable, because later
 * writes to a lookup table overwrite earlier ones.
 */
module Schemes {
  import opened Wrappers

  datatype Group = Group(name: string, graphemes: seq<string>)

  type Scheme = seq<Group>

  /** Alternate spellings of one source scheme: canonical grapheme -> alternates. */
  type AlternateMap = map<string, seq<string>>

  /** Group names in visiting order. */
  function Names(s: Scheme): (r: seq<string>)
    ensures |r| == |s|
    ensures forall i | 0 <= i < |s| :: r[i] == s[i].name
  {
    if |s| == 0 then [] else [s[0].name] + Names(s[1..])
  }

  /** Map lookup `scheme[name]`: the graphemes of the group with that name, if any. */
  function FindGroup(s: Scheme, name: string): (r: Option<seq<string>>)
    ensures r.None? <==> forall i | 0 <= i < |s| :: s[i].name != name
    ensures r.Some? ==>
              exists i | 0 <= i < |s| ::
                && s[i].name == name
                && s[i].graphemes == r.value
                && forall k | 0 <= k < i :: s[k].name != name
  {
    if |s| == 0 then None
    else if s[0].name == name then Some(s[0].graphemes)
    else
      var r := FindGroup(s[1..], name);
      assert r.Some? ==> exists i | 1 <= i < |s| :: s[i].name == name && s[i].graphemes == r.value
                                                    && forall k | 1 <= k < i :: s[k].name != name;
      r
  }

  /**
   * Map assignment `scheme[name] = graphemes` on an insertion-ordered map:
   * an existing group keeps its position and gets the new graphemes, a new
   * group is appended at the end.
   */
  function PutGroup(s: Scheme, name: string, graphemes: seq<string>): Scheme {
    if |s| == 0 then [Group(name, graphemes)]
    else if s[0].name == name then [Group(name, graphemes)] + s[1..]
    else [s[0]] + PutGroup(s[1..], name, graphemes)
  }

  /** After PutGroup, `name` holds the new graphemes and every other name what it held before. */
  lemma {:induction false} PutGroupFinds(s: Scheme, name: string, graphemes: seq<string>, n: string)
    ensures FindGroup(PutGroup(s, name, graphemes), n) == if n == name then Some(graphemes) else FindGroup(s, n)
    decreases |s|
  {
    if |s| > 0 {
      ConsLemma(s[0], s[1..]);
      assert s == [s[0]] + s[1..];
      if s[0].name == name {
        ConsLemma(Group(name, graphemes), s[1..]);
      } else {
        PutGroupFinds(s[1..], name, graphemes, n);
        ConsLemma(s[0], PutGroup(s[1..], name, graphemes));
      }
    }
  }

  /** PutGroup changes no group other than `name`. */
  lemma PutGroupKeepsOthers(s: Scheme, name: string, graphemes: seq<string>)
    ensures FindGroup(PutGroup(s, name, graphemes), name) == Some(graphemes)
    ensures forall n | n != name :: FindGroup(PutGroup(s, name, graphemes), n) == FindGroup(s, n)
  {
    PutGroupFinds(s, name, graphemes, name);
    forall n | n != name
      ensures FindGroup(PutGroup(s, name, graphemes), n) == FindGroup(s, n)
    {
      PutGroupFinds(s, name, graphemes, n);
    }
  }

  /** Insertion order: replacing an existing group keeps the group names and their order. */
  lemma {:induction false} PutGroupKeepsNames(s: Scheme, name: string, graphemes: seq<string>)
    requires FindGroup(s, name).Some?
    ensures Names(PutGroup(s, name, graphemes)) == Names(s)
    decreases |s|
  {
    ConsLemma(s[0], s[1..]);
    assert s == [s[0]] + s[1..];
    if s[0].name == name {
      ConsLemma(Group(name, graphemes), s[1..]);
    } else {
      PutGroupKeepsNames(s[1..], name, graphemes);
      ConsLemma(s[0], PutGroup(s[1..], name, graphemes));
    }
  }

  /** Insertion order: a new group goes at the end. */
  lemma {:induction false} PutGroupAppends(s: Scheme, name: string, graphemes: seq<string>)
    requires FindGroup(s, name).None?
    ensures PutGroup(s, name, graphemes) == s + [Group(name, graphemes)]
    decreases |s|
  {
    if |s| > 0 {
      ConsLemma(s[0], s[1..]);
      PutGroupAppends(s[1..], name, graphemes);
      assert [s[0]] + (s[1..] + [Group(name, graphemes)]) == s + [Group(name, graphemes)];
    }
  }

  /** How lookup and the name list see a group placed in front of a scheme. */
  lemma ConsLemma(g: Group, t: Scheme)
    ensures ([g] + t)[1..] == t
    ensures forall n :: FindGroup([g] + t, n) == if g.name == n then Some(g.graphemes) else FindGroup(t, n)
    ensures Names([g] + t) == [g.name] + Names(t)
  {
    assert ([g] + t)[1..] == t;
  }

  /** `Array.withoutFirst()`: every element but the first; empty stays empty. */
  function WithoutFirst<T>(a: seq<T>): (r: seq<T>)
    ensures |a| == 0 ==> r == []
    ensures |a| > 0 ==> |r| == |a| - 1 && forall i | 0 <= i < |r| :: r[i] == a[i + 1]
  {
    if |a| == 0 then [] else a[1..]
  }

  /** Putting the first element back in front of WithoutFirst restores the array. */
  lemma WithoutFirstRestores<T>(a: seq<T>)
    requires |a| > 0
    ensures [a[0]] + WithoutFirst(a) == a
  {
    var r := [a[0]] + WithoutFirst(a);
    assert forall i | 0 <= i < |a| :: r[i] == a[i];
  }

  /**
   * The state the engine reads: registered schemes, the names registered as
   * roman (`romanSchemes`), and the alternates of each source scheme.
   */
  datatype Registry = Registry(
    schemes: map<string, Scheme>,
    roman: set<string>,
    alternates: map<string, AlternateMap>)

  const EmptyRegistry: Registry := Registry(map[], {}, map[])

  /** `isRomanScheme`: only names passed to AddRomanScheme are roman. */
  predicate IsRomanScheme(reg: Registry, name: string) {
    name in reg.roman
  }

  /** The alternates consulted when `name` is the source scheme (empty if none). */
  function AlternatesOf(reg: Registry, name: string): AlternateMap {
    if name in reg.alternates then reg.alternates[name] else map[]
  }

  /** `addBrahmicScheme`: stores the scheme as it is and leaves the roman set alone. */
  function AddBrahmicScheme(reg: Registry, name: string, scheme: Scheme): (r: Registry)
    ensures r.schemes.Keys == reg.schemes.Keys + {name}
    ensures r.schemes[name] == scheme
    ensures forall n | n in reg.schemes && n != name :: r.schemes[n] == reg.schemes[n]
    ensures forall n :: IsRomanScheme(r, n) <==> IsRomanScheme(reg, n)
    ensures r.alternates == reg.alternates
  {
    reg.(schemes := reg.schemes[name := scheme])
  }

  /** The only way `addRomanScheme` fails: `scheme["vowels"]!!` on a scheme with neither group. */
  datatype RegistrationError = MissingVowels(scheme: string)

  /**
   * The scheme AddRomanScheme actually stores: an absent "vowel_marks"
   * group is synthesised as "vowels" without its first entry (the inherent
   * "a") and appended; an existing one is kept.
   */
  function WithRomanMarks(scheme: Scheme): Option<Scheme> {
    if FindGroup(scheme, "vowel_marks").Some? then Some(scheme)
    else match FindGroup(scheme, "vowels")
      case None => None
      case Some(vowels) => Some(PutGroup(scheme, "vowel_marks", WithoutFirst(vowels)))
  }

  /** The "vowel_marks" group a roman scheme ends up with. */
  function RomanMarks(scheme: Scheme): Option<seq<string>> {
    if FindGroup(scheme, "vowel_marks").Some? then FindGroup(scheme, "vowel_marks")
    else match FindGroup(scheme, "vowels")
      case None => None
      case Some(vowels) => Some(WithoutFirst(vowels))
  }

  /** WithRomanMarks fails only without both groups, and changes nothing but "vowel_marks". */
  lemma WithRomanMarksGroups(scheme: Scheme)
    ensures WithRomanMarks(scheme).None? <==> RomanMarks(scheme).None?
    ensures WithRomanMarks(scheme).Some? ==>
              && FindGroup(WithRomanMarks(scheme).value, "vowel_marks") == RomanMarks(scheme)
              && forall g | g != "vowel_marks" :: FindGroup(WithRomanMarks(scheme).value, g) == FindGroup(scheme, g)
  {
    if FindGroup(scheme, "vowel_marks").None? && FindGroup(scheme, "vowels").Some? {
      PutGroupKeepsOthers(scheme, "vowel_marks", WithoutFirst(FindGroup(scheme, "vowels").value));
    }
  }

  /** `addRomanScheme`. */
  function AddRomanScheme(reg: Registry, name: string, scheme: Scheme): (r: Result<Registry, RegistrationError>)
    ensures r.Failure? <==> FindGroup(scheme, "vowel_marks").None? && FindGroup(scheme, "vowels").None?
    ensures r.Success? ==> IsRomanScheme(r.value, name) && r.value.schemes.Keys == reg.schemes.Keys + {name}
    ensures r.Success? ==> FindGroup(r.value.schemes[name], "vowel_marks") == RomanMarks(scheme)
    ensures r.Success? ==> forall g | g != "vowel_marks" :: FindGroup(r.value.schemes[name], g) == FindGroup(scheme, g)
    ensures r.Success? ==> forall n | n in reg.schemes && n != name :: r.value.schemes[n] == reg.schemes[n]
    ensures r.Success? ==> forall n | n != name :: IsRomanScheme(r.value, n) <==> IsRomanScheme(reg, n)
    ensures r.Success? ==> r.value.alternates == reg.alternates
  {
    WithRomanMarksGroups(scheme);
    match WithRomanMarks(scheme)
    case None => Failure(MissingVowels(name))
    case Some(stored) => Success(Registry(reg.schemes[name := stored], reg.roman + {name}, reg.alternates))
  }

  /** One registration call, as made by the scheme loader. */
  datatype Registration =
    | RegisterBrahmic(name: string, scheme: Scheme)
    | RegisterRoman(name: string, scheme: Scheme)

  /** A sequence of registrations in call order; the first failing call aborts. */
  function RegisterAll(reg: Registry, calls: seq<Registration>): Result<Registry, RegistrationError>
    decreases |calls|
  {
    if |calls| == 0 then Success(reg)
    else
      var next :- match calls[0]
        case RegisterBrahmic(n, s) => Success(AddBrahmicScheme(reg, n, s))
        case RegisterRoman(n, s) => AddRomanScheme(reg, n, s);
      RegisterAll(next, calls[1..])
  }

  /**
   * A name is roman after a run of registrations exactly when it was roman
   * before or was passed to AddRomanScheme; AddBrahmicScheme never makes a
   * name roman.
   */
  lemma {:induction false} RomanIffRegisteredRoman(reg: Registry, calls: seq<Registration>, n: string)
    requires RegisterAll(reg, calls).Success?
    ensures IsRomanScheme(RegisterAll(reg, calls).value, n)
            <==> IsRomanScheme(reg, n) || exists i | 0 <= i < |calls| :: calls[i].RegisterRoman? && calls[i].name == n
    decreases |calls|
  {
    if |calls| > 0 {
      var next := match calls[0]
        case RegisterBrahmic(m, s) => Success(AddBrahmicScheme(reg, m, s))
        case RegisterRoman(m, s) => AddRomanScheme(reg, m, s);
      assert next.Success?;
      RomanIffRegisteredRoman(next.value, calls[1..], n);
      assert forall i | 1 <= i < |calls| :: calls[i] == calls[1..][i - 1];
      if exists i | 0 <= i < |calls| :: calls[i].RegisterRoman? && calls[i].name == n {
        var i :| 0 <= i < |calls| && calls[i].RegisterRoman? && calls[i].name == n;
        if i > 0 {
          assert calls[1..][i - 1].RegisterRoman? && calls[1..][i - 1].name == n;
        }
      }
    }
  }
}
