/**
 * extractor.py: two fixed patterns pulled out of the recognised text, and the
 * in-place normalisation of the resulting record.
 *
 * The patterns `Patient Name[:\s]+([A-Za-z0-9 ]+)` and
 * `Patient ID[:\s]+([A-Za-z0-9\-]+)` are run by `re.search`, which tries each
 * start position from the left; at a position where the literal matches, the
 * greedy separator run `[:\s]+` is shortened one character at a time until the
 * next character can begin the group, and the group then takes the longest
 * run of its class. The functions below do that scan by hand.
 */
module Extractor {
  import opened Wrappers
  import opened Text
  import opened Records

  const PatientNameKey: string := "patient_name"
  const PatientIdKey: string := "patient_id"

  /** The character class of a pattern's capture group. */
  datatype GroupClass = NameChars | IdChars

  /** `[A-Za-z0-9 ]` for names, `[A-Za-z0-9\-]` for IDs. */
  predicate InClass(cls: GroupClass, c: char)
  {
    IsAsciiLetter(c) || IsAsciiDigit(c) || (if cls == NameChars then c == ' ' else c == '-')
  }

  /** `[:\s]` */
  predicate IsSeparator(c: char)
  {
    c == ':' || IsSpace(c)
  }

  /** A pattern `<literal>[:\s]+(<group class>+)`. */
  datatype Pattern = Pattern(literal: string, cls: GroupClass)

  const NamePattern: Pattern := Pattern("Patient Name", NameChars)
  const IdPattern: Pattern := Pattern("Patient ID", IdChars)

  /** Where a search matched: the literal at `start`, `sepLen` separator characters after it,
      and the group running up to `end` (exclusive). */
  datatype Match = Match(start: nat, sepLen: nat, end: nat)

  /** The pattern can match at `p` with a separator run of exactly `m` characters. */
  predicate Admits(text: string, pat: Pattern, p: int, m: int)
  {
    OccursAt(text, pat.literal, p) && m >= 1
    && AllSeparators(text, p + |pat.literal|, m) && CanStartGroup(text, pat.cls, p + |pat.literal|, m)
  }

  /** The `m` characters from `q` on are all separators. */
  predicate AllSeparators(text: string, q: int, m: int)
  {
    0 <= q && q + m <= |text| && forall k :: q <= k < q + m ==> IsSeparator(text[k])
  }

  /** The group can begin right after a separator run of `m` characters from `q`. */
  predicate CanStartGroup(text: string, cls: GroupClass, q: int, m: int)
  {
    0 <= q + m < |text| && InClass(cls, text[q + m])
  }

  /** Length of the longest separator run starting at `q`. */
  function SeparatorRun(text: string, q: nat): (n: nat)
    requires q <= |text|
    ensures q + n <= |text|
    ensures forall k :: q <= k < q + n ==> IsSeparator(text[k])
    ensures q + n < |text| ==> !IsSeparator(text[q + n])
    decreases |text| - q
  {
    if q == |text| || !IsSeparator(text[q]) then 0 else 1 + SeparatorRun(text, q + 1)
  }

  /** End of the longest run of `cls` characters starting at `q`. */
  function ClassRunEnd(text: string, cls: GroupClass, q: nat): (e: nat)
    requires q <= |text|
    ensures q <= e <= |text|
    ensures forall k :: q <= k < e ==> InClass(cls, text[k])
    ensures e < |text| ==> !InClass(cls, text[e])
    decreases |text| - q
  {
    if q == |text| || !InClass(cls, text[q]) then q else ClassRunEnd(text, cls, q + 1)
  }

  /** Backtracking of the greedy separator: the longest separator length `<= m` after which
      the group can start. */
  function GroupStart(text: string, cls: GroupClass, q: nat, m: nat): (r: Option<nat>)
    ensures r.Some? ==> 1 <= r.value <= m && CanStartGroup(text, cls, q, r.value)
    ensures r.Some? ==> forall m' :: r.value < m' <= m ==> !CanStartGroup(text, cls, q, m')
    ensures r.None? ==> forall m' :: 1 <= m' <= m ==> !CanStartGroup(text, cls, q, m')
  {
    if m == 0 then None
    else if CanStartGroup(text, cls, q, m) then Some(m)
    else GroupStart(text, cls, q, m - 1)
  }

  /** The match the regular expression finds when it is tried at position `p`. */
  function MatchAt(text: string, pat: Pattern, p: nat): (r: Option<Match>)
    requires p <= |text|
    ensures r.None? ==> forall m :: !Admits(text, pat, p, m)
    ensures r.Some? ==> r.value.start == p && Admits(text, pat, p, r.value.sepLen)
    ensures r.Some? ==> forall m :: m > r.value.sepLen ==> !Admits(text, pat, p, m)
    ensures r.Some? ==> GroupIsMaximal(text, pat, r.value)
  {
    if !OccursAt(text, pat.literal, p) then None
    else
      var q := p + |pat.literal|;
      var run := SeparatorRun(text, q);
      assert AllSeparators(text, q, run);
      match GroupStart(text, pat.cls, q, run)
      case None => None
      case Some(m) =>
        assert AllSeparators(text, q, m);
        Some(Match(p, m, ClassRunEnd(text, pat.cls, q + m)))
  }

  /** The group of `mt` is non-empty, all of the pattern's class, and cannot be extended. */
  predicate GroupIsMaximal(text: string, pat: Pattern, mt: Match)
  {
    mt.start + |pat.literal| + mt.sepLen < mt.end <= |text|
    && (forall k :: mt.start + |pat.literal| + mt.sepLen <= k < mt.end ==> InClass(pat.cls, text[k]))
    && (mt.end < |text| ==> !InClass(pat.cls, text[mt.end]))
  }

  /** `re.search` from position `p` on: the leftmost position that admits a match. */
  function SearchFrom(text: string, pat: Pattern, p: nat): (r: Option<Match>)
    requires p <= |text|
    ensures r.None? ==> forall p', m :: p <= p' ==> !Admits(text, pat, p', m)
    ensures r.Some? ==> p <= r.value.start && Admits(text, pat, r.value.start, r.value.sepLen)
    ensures r.Some? ==> forall p', m :: p <= p' < r.value.start ==> !Admits(text, pat, p', m)
    ensures r.Some? ==> forall m :: m > r.value.sepLen ==> !Admits(text, pat, r.value.start, m)
    ensures r.Some? ==> GroupIsMaximal(text, pat, r.value)
    decreases |text| - p
  {
    var here := MatchAt(text, pat, p);
    if here.Some? then here
    else if p == |text| then
      assert forall p', m :: p <= p' ==> !Admits(text, pat, p', m) by {
        forall p', m | p <= p' ensures !Admits(text, pat, p', m) {
          if p' > p {
            assert !OccursAt(text, pat.literal, p');
          }
        }
      }
      None
    else SearchFrom(text, pat, p + 1)
  }

  /** `re.search(pattern, text)` */
  function Search(text: string, pat: Pattern): (r: Option<Match>)
    ensures r.None? <==> forall p, m :: !Admits(text, pat, p, m)
    ensures r.Some? ==> Admits(text, pat, r.value.start, r.value.sepLen)
    ensures r.Some? ==> forall p, m :: p < r.value.start ==> !Admits(text, pat, p, m)
    ensures r.Some? ==> forall m :: m > r.value.sepLen ==> !Admits(text, pat, r.value.start, m)
    ensures r.Some? ==> GroupIsMaximal(text, pat, r.value)
  {
    var r := SearchFrom(text, pat, 0);
    assert r.None? ==> forall p, m :: !Admits(text, pat, p, m) by {
      if r.None? {
        forall p, m ensures !Admits(text, pat, p, m) {
          if p < 0 {
            assert !OccursAt(text, pat.literal, p);
          }
        }
      }
    }
    r
  }

  /** `m.group(1)` */
  function Group(text: string, pat: Pattern, mt: Match): (g: string)
    requires GroupIsMaximal(text, pat, mt)
    ensures g == text[mt.start + |pat.literal| + mt.sepLen..mt.end]
    ensures |g| >= 1
    ensures forall k :: 0 <= k < |g| ==> InClass(pat.cls, g[k])
  {
    text[mt.start + |pat.literal| + mt.sepLen..mt.end]
  }

  /** `m.group(1).strip()` when the pattern matches, `None` when it does not. */
  function Capture(text: string, pat: Pattern): (v: Value)
    ensures v == NoneValue <==> forall p, m :: !Admits(text, pat, p, m)
    ensures v.Str? ==> exists mt :: Search(text, pat) == Some(mt) && v.s == Strip(Group(text, pat, mt))
  {
    match Search(text, pat)
    case Some(mt) => Str(Strip(Group(text, pat, mt)))
    case None => NoneValue
  }

  /** Stripping a run of class characters leaves class characters, with no space at either end. */
  lemma StrippedRunShape(g: string, cls: GroupClass)
    requires forall k :: 0 <= k < |g| ==> InClass(cls, g[k])
    ensures forall k :: 0 <= k < |Strip(g)| ==> InClass(cls, Strip(g)[k])
    ensures Strip(g) == [] || (Strip(g)[0] != ' ' && Strip(g)[|Strip(g)| - 1] != ' ')
  {
    var i, j :| 0 <= i <= j <= |g| && Strip(g) == g[i..j];
    assert forall k :: 0 <= k < j - i ==> Strip(g)[k] == g[i + k];
  }

  /** A captured name holds only letters, digits and inner spaces; it may be empty. */
  lemma CapturedNameShape(text: string)
    requires Capture(text, NamePattern).Str?
    ensures var name := Capture(text, NamePattern).s;
            (forall k :: 0 <= k < |name| ==> InClass(NameChars, name[k]))
            && (name == [] || (name[0] != ' ' && name[|name| - 1] != ' '))
  {
    var mt := Search(text, NamePattern).value;
    var g := Group(text, NamePattern, mt);
    assert forall k :: 0 <= k < |g| ==> InClass(NameChars, g[k]);
    StrippedRunShape(g, NameChars);
  }

  /** A captured ID is non-empty and holds only letters, digits and hyphens. */
  lemma CapturedIdShape(text: string)
    requires Capture(text, IdPattern).Str?
    ensures var id := Capture(text, IdPattern).s;
            id != [] && forall k :: 0 <= k < |id| ==> InClass(IdChars, id[k])
  {
    var mt := Search(text, IdPattern).value;
    var g := Group(text, IdPattern, mt);
    assert forall k :: 0 <= k < |g| ==> InClass(IdChars, g[k]);
    StripIdRun(g);
  }

  /** An ID run holds no whitespace, so stripping leaves it as it is. */
  lemma StripIdRun(g: string)
    requires g != [] && forall k :: 0 <= k < |g| ==> InClass(IdChars, g[k])
    ensures Strip(g) == g
  {
    assert !IsSpace(g[0]) && !IsSpace(g[|g| - 1]);
    StripNoEdgeSpace(g);
  }

  /** `extract_fields_from_text`: a fresh record with exactly the two captured fields. */
  function ExtractFieldsFromText(text: string): (rec: map<string, Value>)
    ensures rec.Keys == {PatientNameKey, PatientIdKey}
    ensures rec[PatientNameKey] == NoneValue <==> forall p, m :: !Admits(text, NamePattern, p, m)
    ensures rec[PatientIdKey] == NoneValue <==> forall p, m :: !Admits(text, IdPattern, p, m)
    ensures rec[PatientNameKey] == Capture(text, NamePattern) && rec[PatientIdKey] == Capture(text, IdPattern)
  {
    map[PatientNameKey := Capture(text, NamePattern), PatientIdKey := Capture(text, IdPattern)]
  }

  /** Whether the character before position `k` is cased; before the first one, `afterCased`. */
  predicate CasedBefore(s: string, k: nat, afterCased: bool)
    requires k < |s|
  {
    if k == 0 then afterCased else IsAsciiLetter(s[k - 1])
  }

  /** `str.title()` of `s` when the character before it was cased (`afterCased`) or not. */
  function TitleFrom(s: string, afterCased: bool): (r: string)
    ensures |r| == |s|
    ensures forall k :: 0 <= k < |s| && !IsAsciiLetter(s[k]) ==> r[k] == s[k]
    ensures forall k :: 0 <= k < |s| && IsAsciiLetter(s[k]) && !CasedBefore(s, k, afterCased) ==> r[k] == Upper(s[k])
    ensures forall k :: 0 <= k < |s| && IsAsciiLetter(s[k]) && CasedBefore(s, k, afterCased) ==> r[k] == Lower(s[k])
  {
    if s == [] then []
    else
      var c := if afterCased then Lower(s[0]) else Upper(s[0]);
      var rest := TitleFrom(s[1..], IsAsciiLetter(s[0]));
      var r := [c] + rest;
      forall k | 1 <= k < |s|
        ensures s[k] == s[1..][k - 1] && r[k] == rest[k - 1]
        ensures CasedBefore(s, k, afterCased) == CasedBefore(s[1..], k - 1, IsAsciiLetter(s[0]))
      {
      }
      r
  }

  /** `str.title()`: upper-case the first letter of every word and lower-case the others. */
  function Title(s: string): (r: string)
    ensures |r| == |s|
    ensures forall k :: 0 <= k < |s| && !IsAsciiLetter(s[k]) ==> r[k] == s[k]
    ensures forall k :: 0 <= k < |s| && IsAsciiLetter(s[k]) && (k == 0 || !IsAsciiLetter(s[k - 1])) ==> r[k] == Upper(s[k])
    ensures forall k :: 0 < k < |s| && IsAsciiLetter(s[k]) && IsAsciiLetter(s[k - 1]) ==> r[k] == Lower(s[k])
  {
    TitleFrom(s, false)
  }

  /** Title-casing a title-cased string changes nothing. */
  lemma TitleIdempotent(s: string)
    ensures Title(Title(s)) == Title(s)
  {
    var t := Title(s);
    forall k | 0 <= k < |s| ensures Title(t)[k] == t[k] {
      if k > 0 {
        assert CasedBefore(t, k, false) == CasedBefore(s, k, false);
      }
    }
  }

  /** The record after `normalize_record`: a truthy name title-cased, a missing one set to "". */
  function NormalizedEntries(d: map<string, Value>): (r: map<string, Value>)
    ensures r.Keys == d.Keys + {PatientNameKey}
    ensures forall k :: k in d && k != PatientNameKey ==> r[k] == d[k]
    ensures PatientNameKey !in d ==> r[PatientNameKey] == Str("")
    ensures PatientNameKey in d && !Truthy(d[PatientNameKey]) ==> r[PatientNameKey] == d[PatientNameKey]
    ensures PatientNameKey in d && Truthy(d[PatientNameKey]) ==>
              Truthy(r[PatientNameKey]) && r[PatientNameKey].s == Title(d[PatientNameKey].s)
  {
    if PatientNameKey in d && Truthy(d[PatientNameKey]) then
      d[PatientNameKey := Str(Title(d[PatientNameKey].s))]
    else
      d[PatientNameKey := GetOr(d, PatientNameKey, Str(""))]
  }

  /** Normalising a normalised record changes nothing. */
  lemma {:induction false} NormalizeIdempotent(d: map<string, Value>)
    ensures NormalizedEntries(NormalizedEntries(d)) == NormalizedEntries(d)
  {
    if PatientNameKey in d && Truthy(d[PatientNameKey]) {
      TitleIdempotent(d[PatientNameKey].s);
    }
  }

  /** `normalize_record`: updates the caller's dict in place and returns that same dict. */
  method NormalizeRecord(rec: Record) returns (same: Record)
    modifies rec
    ensures same == rec
    ensures rec.entries == NormalizedEntries(old(rec.entries))
  {
    if PatientNameKey in rec.entries && Truthy(rec.entries[PatientNameKey]) {
      rec.entries := rec.entries[PatientNameKey := Str(Title(rec.entries[PatientNameKey].s))];
    } else {
      rec.entries := rec.entries[PatientNameKey := GetOr(rec.entries, PatientNameKey, Str(""))];
    }
    same := rec;
  }
}
