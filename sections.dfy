/** The fixed, ordered list of page sections.  Its order is the order of the
    page and the tie-break order of the active-section scan. */
module Sections {

  const About: string := "about"
  const Experience: string := "experience"
  const Education: string := "education"
  const Skills: string := "skills"
  const Contact: string := "contact"

  /** The ids the scroll handler scans, in declaration order. */
  const SectionIds: seq<string> := [About, Experience, Education, Skills, Contact]

  predicate Distinct(s: seq<string>) {
    forall i, j :: 0 <= i < j < |s| ==> s[i] != s[j]
  }

  /** The default is the first declared section, the bottom override the last,
      and no id is declared twice. */
  lemma SectionIdsShape()
    ensures |SectionIds| == 5
    ensures SectionIds[0] == About && SectionIds[|SectionIds| - 1] == Contact
    ensures Distinct(SectionIds)
  {
  }

  /** The position of a declared id. */
  function IndexOf(s: seq<string>, x: string): (k: nat)
    requires x in s
    ensures k < |s| && s[k] == x
    ensures forall j :: 0 <= j < k ==> s[j] != x
  {
    if s[0] == x then 0 else 1 + IndexOf(s[1..], x)
  }
}
