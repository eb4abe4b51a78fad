/** The LOINC concept dictionary: code -> human-readable description, with a
    fixed fallback for codes it does not know. */
module Concepts {

  const UnknownConcept: string := "Unknown Concept"

  /** The dictionary every TemporalDB starts with. */
  function DefaultDictionary(): map<string, string>
  {
    map[
      "12345" := "Leukocytes [#/volume] in Blood by Automated count",
      "14743-9" := "Glucose [Moles/volume] in Body fluid",
      "11218-5" := "Anatomic pathology & Lab medicine"
    ]
  }

  /** get_loinc_desc: the entry for the code, or the fallback. */
  function Describe(dict: map<string, string>, code: string): (d: string)
    ensures code in dict ==> d == dict[code]
    ensures code !in dict ==> d == UnknownConcept
  {
    if code in dict then dict[code] else UnknownConcept
  }

  /** With the starting dictionary the fallback is returned exactly for the
      codes outside it, so a caller can tell an unknown code from a known one. */
  lemma DefaultDescriptions(code: string)
    ensures Describe(DefaultDictionary(), code) == UnknownConcept
        <==> code !in {"12345", "14743-9", "11218-5"}
    ensures code == "11218-5" ==>
              Describe(DefaultDictionary(), code) == "Anatomic pathology & Lab medicine"
  {
    var dict := DefaultDictionary();
    if code in dict {
      assert dict[code] != UnknownConcept by {
        assert |UnknownConcept| == 15;
        assert |dict["12345"]| != 15 && |dict["14743-9"]| != 15 && |dict["11218-5"]| != 15;
      }
    }
  }
}
