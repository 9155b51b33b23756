/** Substring search, as `std::string_view::find` performs it. */
module TextSearch {

  predicate OccursAt(text: string, marker: string, at: nat) {
    at + |marker| <= |text| && text[at..at + |marker|] == marker
  }

  /** `text.find(marker, from) != npos` */
  predicate FoundFrom(text: string, marker: string, from: nat) {
    exists at: nat :: from <= at <= |text| && OccursAt(text, marker, at)
  }

  predicate Contains(text: string, marker: string) {
    FoundFrom(text, marker, 0)
  }

  /** A text contains the marker when it stands somewhere in it, with something before and after. */
  lemma ContainsExactly(text: string, marker: string)
    ensures Contains(text, marker) <==> exists before, after :: text == before + marker + after
  {
    if Contains(text, marker) {
      var at: nat :| at <= |text| && OccursAt(text, marker, at);
      assert text == text[..at] + marker + text[at + |marker|..];
    }
    if before, after :| text == before + marker + after {
      assert text[|before|..|before| + |marker|] == marker;
      assert OccursAt(text, marker, |before|);
    }
  }

  /** `at` is the position of the first occurrence. */
  predicate FirstAt(text: string, marker: string, at: nat) {
    && OccursAt(text, marker, at)
    && forall i: nat :: i < at ==> !OccursAt(text, marker, i)
  }
}
