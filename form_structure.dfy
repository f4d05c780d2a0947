/**
 * The static field catalog of form_structure.py: sixteen fields, each with a
 * key, its English and Arabic keywords and the section it belongs to, and the
 * three lookups over it.
 */
module FormStructure {
  import opened Wrappers

  datatype CatalogField = CatalogField(key: string, keywords: seq<string>, section: string)

  /** `FORM_FIELDS`, in declaration order. */
  const FormFields: seq<CatalogField> := [
    CatalogField("patient_name", ["Name", "اسم المريض"], "Patient Info"),
    CatalogField("patient_id", ["ID", "رقم المريض"], "Patient Info"),
    CatalogField("nationality", ["Nationality", "الجنسية"], "Patient Info"),
    CatalogField("age", ["Age", "العمر"], "Patient Info"),
    CatalogField("gender", ["Gender", "الجنس"], "Patient Info"),
    CatalogField("phone", ["Phone", "رقم الهاتف"], "Contact"),
    CatalogField("address", ["Address", "العنوان"], "Contact"),
    CatalogField("symptom_start", ["Date of symptom", "تاريخ بدء الأعراض"], "Clinical"),
    CatalogField("symptoms", ["Symptoms", "الأعراض"], "Clinical"),
    CatalogField("diagnosis_date", ["Diagnosis date", "تاريخ التشخيص"], "Clinical"),
    CatalogField("species", ["Species", "نوع الطفيل"], "Clinical"),
    CatalogField("travel_history", ["Travel", "سفر"], "Investigation"),
    CatalogField("place_of_travel", ["Place of travel", "مكان السفر"], "Investigation"),
    CatalogField("contact_with_cases", ["Contact", "مخالطة"], "Investigation"),
    CatalogField("treatment_given", ["Treatment", "العلاج"], "Treatment"),
    CatalogField("outcome", ["Outcome", "النتيجة"], "Treatment")
  ]

  /** The sections the catalog groups its fields into. */
  const Sections: set<string> := {"Patient Info", "Contact", "Clinical", "Investigation", "Treatment"}

  /** The section `get_section_for_key` reports for a key outside the catalog. */
  const DefaultSection: string := "General"

  /** `next((f for f in fields if f["key"] == key), None)`: the first entry with that key. */
  function FindField(fields: seq<CatalogField>, key: string): (r: Option<CatalogField>)
    ensures r.None? <==> forall i :: 0 <= i < |fields| ==> fields[i].key != key
    ensures r.Some? ==> exists i :: 0 <= i < |fields| && fields[i] == r.value
                                   && r.value.key == key
                                   && forall j :: 0 <= j < i ==> fields[j].key != key
  {
    if fields == [] then None
    else if fields[0].key == key then Some(fields[0])
    else
      var r := FindField(fields[1..], key);
      assert r.Some? ==> exists i :: 0 <= i < |fields| && fields[i] == r.value
                                   && r.value.key == key
                                   && forall j :: 0 <= j < i ==> fields[j].key != key by {
        if r.Some? {
          var i :| 0 <= i < |fields| - 1 && fields[1..][i] == r.value && r.value.key == key
                   && forall j :: 0 <= j < i ==> fields[1..][j].key != key;
          assert forall j :: 1 <= j < i + 1 ==> fields[j].key == fields[1..][j - 1].key;
          assert fields[i + 1] == r.value;
        }
      }
      r
  }

  /** `get_field_by_key` */
  function GetFieldByKey(key: string): (r: Option<CatalogField>)
    ensures r.None? <==> key !in GetAllKeys()
    ensures r.Some? ==> r.value in FormFields && r.value.key == key
  {
    FindField(FormFields, key)
  }

  /** `get_all_keys`: the catalog's keys, in catalog order. */
  function GetAllKeys(): (keys: seq<string>)
    ensures |keys| == |FormFields|
    ensures forall i :: 0 <= i < |keys| ==> keys[i] == FormFields[i].key
  {
    seq(|FormFields|, i requires 0 <= i < |FormFields| => FormFields[i].key)
  }

  /** `get_section_for_key`: the entry's section, or "General" for an unknown key. */
  function GetSectionForKey(key: string): (section: string)
    ensures key in GetAllKeys() ==> exists i :: 0 <= i < |FormFields| && FormFields[i].key == key
                                               && section == FormFields[i].section
    ensures key !in GetAllKeys() ==> section == DefaultSection
  {
    match GetFieldByKey(key)
    case Some(f) => f.section
    case None => DefaultSection
  }

  /** There are sixteen keys. */
  lemma KeyCount()
    ensures |GetAllKeys()| == 16
  {
  }

  /** No two catalog entries share a key. */
  lemma KeysDistinct()
    ensures forall i, j :: 0 <= i < j < |FormFields| ==> FormFields[i].key != FormFields[j].key
  {
  }

  /** Each key's lookup yields exactly its own catalog entry (keys are distinct). */
  lemma {:induction false} LookupFindsEntry(i: nat)
    requires i < |FormFields|
    ensures GetFieldByKey(FormFields[i].key) == Some(FormFields[i])
    ensures GetSectionForKey(FormFields[i].key) == FormFields[i].section
  {
    KeysDistinct();
  }

  /** Printable ASCII, the script of the English keywords. */
  predicate IsEnglishText(s: string)
  {
    forall k :: 0 <= k < |s| ==> ' ' <= s[k] <= '~'
  }

  /** Arabic letters (U+0600-U+06FF) and spaces, the script of the Arabic keywords. */
  predicate IsArabicText(s: string)
  {
    forall k :: 0 <= k < |s| ==> s[k] == ' ' || '\U{0600}' <= s[k] <= '\U{06FF}'
  }

  /** Every entry has exactly two keywords and a section among the five. */
  lemma EntriesWellFormed()
    ensures forall i :: 0 <= i < |FormFields| ==> |FormFields[i].keywords| == 2 && FormFields[i].section in Sections
  {
  }

  /** Every entry's first keyword is the English one. */
  lemma EnglishKeywordsFirst()
    ensures forall i :: 0 <= i < |FormFields| ==> |FormFields[i].keywords| == 2 && IsEnglishText(FormFields[i].keywords[0])
  {
    EnglishKeywordsLow();
    EnglishKeywordsHigh();
  }

  /** Every entry's second keyword is the Arabic one. */
  lemma ArabicKeywordsSecond()
    ensures forall i :: 0 <= i < |FormFields| ==> |FormFields[i].keywords| == 2 && IsArabicText(FormFields[i].keywords[1])
  {
    ArabicKeywordsLow();
    ArabicKeywordsHigh();
  }

  // The two facts above, over the first and the second eight entries separately.

  lemma EnglishKeywordsLow()
    ensures forall i :: 0 <= i < 8 ==> |FormFields[i].keywords| == 2 && IsEnglishText(FormFields[i].keywords[0])
  {
  }

  lemma EnglishKeywordsHigh()
    ensures forall i :: 8 <= i < 16 ==> |FormFields[i].keywords| == 2 && IsEnglishText(FormFields[i].keywords[0])
  {
  }

  lemma ArabicKeywordsLow()
    ensures forall i :: 0 <= i < 8 ==> |FormFields[i].keywords| == 2 && IsArabicText(FormFields[i].keywords[1])
  {
  }

  lemma ArabicKeywordsHigh()
    ensures forall i :: 8 <= i < 16 ==> |FormFields[i].keywords| == 2 && IsArabicText(FormFields[i].keywords[1])
  {
  }
}
