/** Concrete titles run through `removeScanlator` (src/utils.ts). */
module UtilsExamples {
  import opened Strings
  import opened Utils

  lemma ChapterMarker()
    ensures StartsWith(ToLower("Chapter"), "ch")
  {
    assert ToLower("Chapter") == "chapter";
  }

  lemma SomeGroupIsATag()
    ensures !Contains(ToLower("SomeGroup"), "chapter")
  {
    assert ToLower("SomeGroup") == "somegroup";
    NotContainsMissingChar("somegroup", "chapter", 'c');
  }

  lemma RemoveScanlatorStripsTagged(tag: string, marker: string, tail: string)
    requires '_' !in tag && '_' !in marker
    requires StartsWith(ToLower(marker), "ch") && !Contains(ToLower(tag), "chapter")
    ensures RemoveScanlator(tag + "_" + marker + "_" + tail) == marker + "_" + tail
  {
    RemoveScanlatorOfTagged(tag, marker, tail);
  }

  /** "SomeGroup_Chapter_12" becomes "Chapter_12". */
  lemma RemoveScanlatorStripsExample(tag: string, marker: string, tail: string)
    requires tag == "SomeGroup" && marker == "Chapter" && tail == "12"
    ensures RemoveScanlator(tag + "_" + marker + "_" + tail) == marker + "_" + tail
  {
    ChapterMarker();
    SomeGroupIsATag();
    RemoveScanlatorStripsTagged(tag, marker, tail);
  }

  /** "Chapter_Twelve_Special" is kept: its first segment mentions "chapter". */
  lemma RemoveScanlatorKeepsExample(first: string, second: string, tail: string)
    requires first == "Chapter" && second == "Twelve" && tail == "Special"
    ensures var title := first + "_" + second + "_" + tail;
      RemoveScanlator(title) == title
  {
    assert ToLower("Chapter") == "chapter";
    assert StartsWith("chapter", "chapter");
    RemoveScanlatorOfTagged(first, second, tail);
  }
}
