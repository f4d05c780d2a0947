/**
 * form_mapper.py: bilingual label/value extraction. `FORM_STRUCTURE` lists
 * sections of (Arabic, English) label pairs; each field's column header is
 * "<English> / <Arabic>"; a field's value is found by a line scan for its
 * Arabic label, then for its English one.
 */
module FormMapper {
  import opened Text

  datatype Field = Field(ar: string, en: string)

  datatype Section = Section(name: string, fields: seq<Field>)

  /** `FORM_STRUCTURE` (this catalog is unrelated to the one in form_structure.py). */
  const FormStructure: seq<Section> := [
    Section("Section A: Patient Info", [
      Field("الاسم", "Name"),
      Field("العمر", "Age"),
      Field("الجنس", "Gender")
    ]),
    Section("Section B: Symptoms", [
      Field("الحمى", "Fever"),
      Field("قشعريرة", "Chills"),
      Field("تاريخ بداية الأعراض", "Symptoms Start Date")
    ]),
    Section("Section C: Lab Results", [
      Field("فحص الملاريا", "Malaria Test"),
      Field("نوع الطفيل", "Parasite Type")
    ])
  ]

  /** The column header of a field: f"{en} / {ar}". */
  function Header(f: Field): (h: string)
    ensures |h| == |f.en| + 3 + |f.ar|
    ensures h[..|f.en|] == f.en && h[|f.en|..|f.en| + 3] == " / " && h[|f.en| + 3..] == f.ar
  {
    f.en + " / " + f.ar
  }

  /** The fields of all sections, section by section, in declaration order. */
  function AllFields(sections: seq<Section>): seq<Field>
  {
    if sections == [] then [] else sections[0].fields + AllFields(sections[1..])
  }

  function Headers(fields: seq<Field>): (hs: seq<string>)
    ensures |hs| == |fields|
    ensures forall i :: 0 <= i < |fields| ==> hs[i] == Header(fields[i])
  {
    seq(|fields|, i requires 0 <= i < |fields| => Header(fields[i]))
  }

  lemma {:induction false} AllFieldsConcat(a: seq<Section>, b: seq<Section>)
    ensures AllFields(a + b) == AllFields(a) + AllFields(b)
  {
    if a != [] {
      assert (a + b)[0] == a[0] && (a + b)[1..] == a[1..] + b;
      AllFieldsConcat(a[1..], b);
    } else {
      assert a + b == b;
    }
  }

  /** Sections 0..s-1 in full, then the first j fields of section s, are a prefix of all fields. */
  lemma AllFieldsPrefix(sections: seq<Section>, s: nat, j: nat)
    requires s < |sections| && j <= |sections[s].fields|
    ensures AllFields(sections[..s]) + sections[s].fields[..j] <= AllFields(sections)
    ensures AllFields(sections[..s + 1]) == AllFields(sections[..s]) + sections[s].fields
  {
    assert sections == sections[..s] + sections[s..];
    AllFieldsConcat(sections[..s], sections[s..]);
    assert sections[..s + 1] == sections[..s] + [sections[s]];
    AllFieldsConcat(sections[..s], [sections[s]]);
    assert AllFields([sections[s]]) == sections[s].fields;
  }

  lemma PrefixAt(p: seq<Field>, q: seq<Field>, all: seq<Field>, j: nat)
    requires p + q <= all && j < |q|
    ensures all[|p| + j] == q[j]
  {
    assert (p + q)[|p| + j] == q[j];
  }

  /** The form has eight fields, and no two share a header. */
  lemma FormFieldsFacts()
    ensures |AllFields(FormStructure)| == 8
    ensures forall i, j :: 0 <= i < j < 8 ==> Header(AllFields(FormStructure)[i]) != Header(AllFields(FormStructure)[j])
  {
    assert AllFields(FormStructure[2..]) == FormStructure[2].fields by {
      assert FormStructure[2..][1..] == [];
    }
    assert AllFields(FormStructure[1..]) == FormStructure[1].fields + FormStructure[2].fields by {
      assert FormStructure[1..][1..] == FormStructure[2..];
    }
  }

  /** `get_combined_headers`: one header per field, section by section. */
  method GetCombinedHeaders() returns (headers: seq<string>)
    ensures |headers| == |AllFields(FormStructure)| == 8
    ensures forall i :: 0 <= i < |headers| ==> headers[i] == Header(AllFields(FormStructure)[i])
  {
    ghost var all := AllFields(FormStructure);
    headers := [];
    var s := 0;
    while s < |FormStructure|
      invariant 0 <= s <= |FormStructure|
      invariant AllFields(FormStructure[..s]) <= all
      invariant headers == Headers(AllFields(FormStructure[..s]))
    {
      var fields := FormStructure[s].fields;
      var j := 0;
      while j < |fields|
        invariant 0 <= j <= |fields|
        invariant headers == Headers(AllFields(FormStructure[..s]) + fields[..j])
      {
        assert fields[..j + 1] == fields[..j] + [fields[j]];
        headers := headers + [Header(fields[j])];
        j := j + 1;
      }
      AllFieldsPrefix(FormStructure, s, j);
      assert fields[..j] == fields;
      s := s + 1;
    }
    assert FormStructure[..s] == FormStructure;
    FormFieldsFacts();
  }

  /** The `for i, line in enumerate(lines)` scan of `extract_value`, from line `i` on. */
  function ScanLines(lines: seq<string>, labelText: string, i: nat): (r: string)
    requires i <= |lines|
    requires forall k :: 0 <= k < |lines| ==> '\n' !in lines[k]
    ensures '\n' !in r
    decreases |lines| - i
  {
    if i == |lines| then ""
    else if Contains(lines[i], labelText) then
      var parts := Split(lines[i], ':');
      if |parts| > 1 then parts[1]
      else if i + 1 < |lines| then lines[i + 1]
      else ScanLines(lines, labelText, i + 1)
    else
      ScanLines(lines, labelText, i + 1)
  }

  /** Line `k` is the first line at or after `i` that contains `labelText`. */
  predicate IsFirstLineWith(lines: seq<string>, labelText: string, i: nat, k: int)
  {
    i <= k < |lines| && Contains(lines[k], labelText)
    && forall j :: i <= j < k ==> !Contains(lines[j], labelText)
  }

  /** The value taken from the first matching line `k`: the text between its first and second
      colon; without a colon, the next line verbatim, or "" when `k` is the last line. */
  predicate TakesValueAt(lines: seq<string>, k: nat, r: string)
    requires k < |lines|
  {
    (':' in lines[k] ==> r == Split(lines[k], ':')[1] && ':' !in r)
    && (':' !in lines[k] && k + 1 < |lines| ==> r == lines[k + 1])
    && (':' !in lines[k] && k + 1 == |lines| ==> r == "")
  }

  /** The scan returns "" when no line from `i` on contains the label. */
  lemma {:induction false} ScanLinesNoMatch(lines: seq<string>, labelText: string, i: nat)
    requires i <= |lines|
    requires forall k :: 0 <= k < |lines| ==> '\n' !in lines[k]
    requires forall k :: i <= k < |lines| ==> !Contains(lines[k], labelText)
    ensures ScanLines(lines, labelText, i) == ""
    decreases |lines| - i
  {
    if i < |lines| {
      ScanLinesNoMatch(lines, labelText, i + 1);
    }
  }

  /** Only the first line that contains the label decides the result. */
  lemma {:induction false} ScanLinesFirstMatch(lines: seq<string>, labelText: string, i: nat, k: nat)
    requires i <= |lines|
    requires forall j :: 0 <= j < |lines| ==> '\n' !in lines[j]
    requires IsFirstLineWith(lines, labelText, i, k)
    ensures TakesValueAt(lines, k, ScanLines(lines, labelText, i))
    decreases |lines| - i
  {
    if i < k {
      ScanLinesFirstMatch(lines, labelText, i + 1, k);
    } else if |Split(lines[k], ':')| == 1 && k + 1 == |lines| {
      ScanLinesNoMatch(lines, labelText, k + 1);
    }
  }

  /** `extract_value`: the value after the first line that contains `labelText`. */
  function ExtractValue(text: string, labelText: string): (r: string)
    ensures '\n' !in r
  {
    ScanLines(Lines(text), labelText, 0)
  }

  /** `extract_value` yields "" when no line contains the label (a case-sensitive substring test),
      and otherwise what the first such line dictates. */
  lemma ExtractValueSpec(text: string, labelText: string)
    ensures (forall k :: 0 <= k < |Lines(text)| ==> !Contains(Lines(text)[k], labelText)) ==> ExtractValue(text, labelText) == ""
    ensures forall k :: IsFirstLineWith(Lines(text), labelText, 0, k) ==> TakesValueAt(Lines(text), k, ExtractValue(text, labelText))
  {
    var lines := Lines(text);
    if forall k :: 0 <= k < |lines| ==> !Contains(lines[k], labelText) {
      ScanLinesNoMatch(lines, labelText, 0);
    }
    forall k | IsFirstLineWith(lines, labelText, 0, k)
      ensures TakesValueAt(lines, k, ExtractValue(text, labelText))
    {
      ScanLinesFirstMatch(lines, labelText, 0, k);
    }
  }

  /** `found` in `extract_fields_from_text`: the Arabic label's value, else the English label's. */
  function Found(text: string, f: Field): (r: string)
    ensures r == ExtractValue(text, f.ar) || r == ExtractValue(text, f.en)
    ensures ExtractValue(text, f.ar) != "" ==> r == ExtractValue(text, f.ar)
    ensures r != "" <==> ExtractValue(text, f.ar) != "" || ExtractValue(text, f.en) != ""
  {
    var viaArabic := ExtractValue(text, f.ar);
    if viaArabic != "" then viaArabic else ExtractValue(text, f.en)
  }

  /** Only one label needs to be on the form: whichever is absent does not change the value. */
  lemma FoundFromEitherLabel(text: string, f: Field)
    ensures (forall k :: 0 <= k < |Lines(text)| ==> !Contains(Lines(text)[k], f.ar)) ==> Found(text, f) == ExtractValue(text, f.en)
    ensures (forall k :: 0 <= k < |Lines(text)| ==> !Contains(Lines(text)[k], f.en)) ==> Found(text, f) == ExtractValue(text, f.ar)
    ensures '\n' !in Found(text, f)
  {
    ExtractValueSpec(text, f.ar);
    ExtractValueSpec(text, f.en);
  }

  /** The finds of the fields, in order. */
  function FoundAll(text: string, fields: seq<Field>): (finds: seq<string>)
    ensures |finds| == |fields|
    ensures forall i :: 0 <= i < |fields| ==> finds[i] == Found(text, fields[i])
  {
    seq(|fields|, i requires 0 <= i < |fields| => Found(text, fields[i]))
  }

  /** The dict `extract_fields_from_text` has built after visiting the fields `done`, whose finds are `finds`. */
  function ExtractedMap(done: seq<Field>, finds: seq<string>): map<string, string>
    requires |finds| == |done|
  {
    if done == [] then map[]
    else
      var m := ExtractedMap(done[..|done| - 1], finds[..|done| - 1]);
      var found := finds[|done| - 1];
      if found != "" then m[Header(done[|done| - 1]) := Strip(found)] else m
  }

  /** Visiting one more field adds its header when its find is non-empty. */
  lemma ExtractedMapStep(all: seq<Field>, finds: seq<string>, n: nat)
    requires |finds| == |all| && n < |all|
    ensures ExtractedMap(all[..n + 1], finds[..n + 1])
            == if finds[n] != "" then ExtractedMap(all[..n], finds[..n])[Header(all[n]) := Strip(finds[n])]
               else ExtractedMap(all[..n], finds[..n])
  {
    assert all[..n + 1][..n] == all[..n];
    assert finds[..n + 1][..n] == finds[..n];
  }

  /** Every key of the dict is the header of a visited field. */
  lemma {:induction false} ExtractedKeysAreHeaders(done: seq<Field>, finds: seq<string>)
    requires |finds| == |done|
    ensures forall h :: h in ExtractedMap(done, finds) ==> h in Headers(done)
  {
    if done != [] {
      var init := done[..|done| - 1];
      ExtractedKeysAreHeaders(init, finds[..|done| - 1]);
      forall h | h in ExtractedMap(done, finds) ensures h in Headers(done) {
        if h in ExtractedMap(init, finds[..|done| - 1]) {
          var i :| 0 <= i < |init| && Headers(init)[i] == h;
          assert Headers(done)[i] == h;
        } else {
          assert Headers(done)[|done| - 1] == h;
        }
      }
    }
  }

  /** With distinct headers, a field's header is a key iff its find is non-empty, and maps to the stripped find. */
  lemma {:induction false} ExtractedEntries(done: seq<Field>, finds: seq<string>, i: nat)
    requires |finds| == |done| && i < |done|
    requires forall a, b :: 0 <= a < b < |done| ==> Header(done[a]) != Header(done[b])
    ensures Header(done[i]) in ExtractedMap(done, finds) <==> finds[i] != ""
    ensures Header(done[i]) in ExtractedMap(done, finds) ==> ExtractedMap(done, finds)[Header(done[i])] == Strip(finds[i])
  {
    var init := done[..|done| - 1];
    if i < |done| - 1 {
      assert init[i] == done[i];
      ExtractedEntries(init, finds[..|done| - 1], i);
      assert Header(done[i]) != Header(done[|done| - 1]);
    } else {
      ExtractedKeysAreHeaders(init, finds[..|done| - 1]);
      assert Header(done[i]) !in Headers(init) by {
        forall k | 0 <= k < |init| ensures Headers(init)[k] != Header(done[i]) {
          assert init[k] == done[k];
        }
      }
    }
  }

  /** What the dict holds once every field of the form has been visited. */
  lemma ExtractedFormFields(text: string)
    ensures forall h :: h in ExtractedMap(AllFields(FormStructure), FoundAll(text, AllFields(FormStructure))) ==> h in Headers(AllFields(FormStructure))
    ensures forall i :: 0 <= i < |AllFields(FormStructure)| ==>
              (Header(AllFields(FormStructure)[i]) in ExtractedMap(AllFields(FormStructure), FoundAll(text, AllFields(FormStructure)))
               <==> Found(text, AllFields(FormStructure)[i]) != "")
    ensures forall i :: 0 <= i < |AllFields(FormStructure)|
                        && Header(AllFields(FormStructure)[i]) in ExtractedMap(AllFields(FormStructure), FoundAll(text, AllFields(FormStructure))) ==>
              ExtractedMap(AllFields(FormStructure), FoundAll(text, AllFields(FormStructure)))[Header(AllFields(FormStructure)[i])]
              == Strip(Found(text, AllFields(FormStructure)[i]))
  {
    var all := AllFields(FormStructure);
    var finds := FoundAll(text, all);
    FormFieldsFacts();
    ExtractedKeysAreHeaders(all, finds);
    forall i | 0 <= i < |all|
      ensures Header(all[i]) in ExtractedMap(all, finds) <==> finds[i] != ""
      ensures Header(all[i]) in ExtractedMap(all, finds) ==> ExtractedMap(all, finds)[Header(all[i])] == Strip(finds[i])
    {
      ExtractedEntries(all, finds, i);
    }
  }

  /** `extract_fields_from_text`: for each field with a non-empty find, its header mapped to the stripped value. */
  method ExtractFieldsFromText(text: string) returns (data: map<string, string>)
    ensures forall h :: h in data ==> h in Headers(AllFields(FormStructure))
    ensures forall i :: 0 <= i < |AllFields(FormStructure)| ==>
              (Header(AllFields(FormStructure)[i]) in data <==> Found(text, AllFields(FormStructure)[i]) != "")
    ensures forall i :: 0 <= i < |AllFields(FormStructure)| && Header(AllFields(FormStructure)[i]) in data ==>
              data[Header(AllFields(FormStructure)[i])] == Strip(Found(text, AllFields(FormStructure)[i]))
  {
    ghost var all := AllFields(FormStructure);
    ghost var finds := FoundAll(text, all);
    data := map[];
    ghost var n := 0;
    var s := 0;
    while s < |FormStructure|
      invariant 0 <= s <= |FormStructure|
      invariant n == |AllFields(FormStructure[..s])| <= |all|
      invariant data == ExtractedMap(all[..n], finds[..n])
    {
      var fields := FormStructure[s].fields;
      AllFieldsPrefix(FormStructure, s, |fields|);
      assert fields[..|fields|] == fields;
      ghost var before := AllFields(FormStructure[..s]);
      var j := 0;
      while j < |fields|
        invariant 0 <= j <= |fields|
        invariant n == |before| + j
        invariant data == ExtractedMap(all[..n], finds[..n])
      {
        PrefixAt(before, fields, all, j);
        ExtractedMapStep(all, finds, n);
        var found := ExtractValue(text, fields[j].ar);
        if found == "" {
          found := ExtractValue(text, fields[j].en);
        }
        assert found == finds[n];
        if found != "" {
          data := data[Header(fields[j]) := Strip(found)];
        }
        n := n + 1;
        j := j + 1;
      }
      s := s + 1;
    }
    assert FormStructure[..s] == FormStructure;
    assert all[..n] == all && finds[..n] == finds;
    ExtractedFormFields(text);
  }
}
