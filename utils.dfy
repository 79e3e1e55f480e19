/** The pure helpers of src/utils.ts: natural chapter ordering, scanlator-tag
    stripping, the MIME/extension table, `omit` and `createKeyValueObject`. */
module Utils {
  import opened Wrappers
  import opened Strings

  // ---------------------------------------------------------------------------
  // smartSort
  // ---------------------------------------------------------------------------

  function DigitValue(c: char): nat {
    if IsDigit(c) then (c as int) - ('0' as int) else 0
  }

  predicate AllDigits(s: string) {
    forall i :: 0 <= i < |s| ==> IsDigit(s[i])
  }

  /** The maximal run of digits at the start of `s`. */
  function DigitPrefix(s: string): (d: string)
    ensures AllDigits(d) && StartsWith(s, d)
    ensures |d| < |s| ==> !IsDigit(s[|d|])
  {
    if |s| > 0 && IsDigit(s[0]) then [s[0]] + DigitPrefix(s[1..]) else ""
  }

  /** `s.match(/\d+/)?.[0]`: the first maximal run of decimal digits, "" when there is none. */
  function FirstDigitRun(s: string): string {
    if |s| == 0 then ""
    else if IsDigit(s[0]) then DigitPrefix(s)
    else FirstDigitRun(s[1..])
  }

  /** `parseInt(ds, 10)` for a string of decimal digits. */
  function DecimalValue(ds: string): nat {
    if |ds| == 0 then 0 else 10 * DecimalValue(ds[..|ds| - 1]) + DigitValue(ds[|ds| - 1])
  }

  /** `parseInt(s.match(/\d+/)?.[0] || "0", 10)` */
  function FirstInt(s: string): nat {
    var run := FirstDigitRun(s);
    DecimalValue(if run == "" then "0" else run)
  }

  /** `smartSort(a, b)`: negative when `a` orders first. */
  function SmartSort(a: string, b: string): int {
    FirstInt(a) - FirstInt(b)
  }

  /** `FirstInt` reads exactly the first run of digits: skipped text before it
      has no digit, and the run ends where the digits end. */
  lemma {:induction false} FirstIntReadsFirstRun(before: string, digits: string, after: string)
    requires forall i :: 0 <= i < |before| ==> !IsDigit(before[i])
    requires |digits| > 0 && AllDigits(digits)
    requires |after| == 0 || !IsDigit(after[0])
    ensures FirstInt(before + digits + after) == DecimalValue(digits)
    decreases |before|
  {
    var s := before + digits + after;
    if |before| == 0 {
      assert s == digits + after;
      DigitPrefixOf(digits, after);
    } else {
      assert s[1..] == before[1..] + digits + after;
      FirstIntReadsFirstRun(before[1..], digits, after);
    }
  }

  lemma {:induction false} DigitPrefixOf(digits: string, after: string)
    requires AllDigits(digits)
    requires |after| == 0 || !IsDigit(after[0])
    ensures DigitPrefix(digits + after) == digits
    ensures |digits| > 0 ==> FirstDigitRun(digits + after) == digits
    decreases |digits|
  {
    if |digits| > 0 {
      assert (digits + after)[1..] == digits[1..] + after;
      DigitPrefixOf(digits[1..], after);
      assert digits == [digits[0]] + digits[1..];
    } else {
      assert digits + after == after;
    }
  }

  /** A name without digits orders as chapter 0. */
  lemma {:induction false} FirstIntNoDigits(s: string)
    requires forall i :: 0 <= i < |s| ==> !IsDigit(s[i])
    ensures FirstInt(s) == 0
    decreases |s|
  {
    if |s| > 0 {
      FirstIntNoDigits(s[1..]);
    }
    assert DecimalValue("0") == 10 * DecimalValue("") + 0;
  }

  /** smartSort is antisymmetric and gives 0 on equal names; it orders names as
      their first integers order, so it is a consistent comparator. */
  lemma SmartSortComparator(a: string, b: string, c: string)
    ensures SmartSort(a, a) == 0
    ensures SmartSort(a, b) == -SmartSort(b, a)
    ensures SmartSort(a, b) <= 0 && SmartSort(b, c) <= 0 ==> SmartSort(a, c) <= 0
    ensures SmartSort(a, b) < 0 <==> FirstInt(a) < FirstInt(b)
  {
  }

  /** Natural ordering: "Chapter 2" sorts before "Chapter 10", and "Chapter 1" before "Chapter 2". */
  lemma NaturalOrderExample()
    ensures FirstInt("Chapter 1") == 1 && FirstInt("Chapter 2") == 2 && FirstInt("Chapter 10") == 10
    ensures SmartSort("Chapter 2", "Chapter 10") < 0
    ensures SmartSort("Chapter 1", "Chapter 2") < 0
  {
    var word := "Chapter ";
    assert forall i :: 0 <= i < |word| ==> !IsDigit(word[i]);
    assert "Chapter 1" == word + "1" + "";
    assert "Chapter 2" == word + "2" + "";
    assert "Chapter 10" == word + "10" + "";
    FirstIntReadsFirstRun(word, "1", "");
    FirstIntReadsFirstRun(word, "2", "");
    FirstIntReadsFirstRun(word, "10", "");
    assert DecimalValue("1") == 1;
    assert DecimalValue("2") == 2;
    assert "10"[..1] == "1";
    assert DecimalValue("10") == 10;
  }

  // ---------------------------------------------------------------------------
  // removeScanlator
  // ---------------------------------------------------------------------------

  /** `removeScanlator(title)`: drops a leading scanlator tag `Group_` when the
      segment after it looks like a chapter marker and the tag itself does not
      mention "chapter". */
  function RemoveScanlator(title: string): (r: string)
    ensures StripsScanlatorTag(title) ==> r == title[IndexOf(title, '_') + 1..]
    ensures !StripsScanlatorTag(title) ==> r == title
  {
    var parts := Split(title, '_');
    assert '_' in title ==> |parts| > 1 && parts[0] == TagSegment(title) && parts[1] == MarkerSegment(title) by {
      if '_' in title { SplitSegments(title, '_'); }
    }
    assert '_' !in title ==> parts == [title];
    if |parts| > 1 && TagBeforeMarker(parts[0], parts[1]) then
      SplitTail(title, '_');
      Join(parts[1..], '_')
    else
      title
  }

  /** The first two segments of a split are the text before the first
      separator and the text between the first and the second. */
  lemma SplitSegments(s: string, sep: char)
    requires sep in s
    ensures var parts := Split(s, sep);
      var rest := s[IndexOf(s, sep) + 1..];
      && |parts| > 1
      && parts[0] == s[..IndexOf(s, sep)]
      && parts[1] == if sep in rest then rest[..IndexOf(rest, sep)] else rest
  {
  }

  /** The position of a separator that follows separator-free text. */
  lemma IndexOfAfter(x: string, c: char, y: string)
    requires c !in x
    ensures IndexOf(x + [c] + y, c) == |x|
  {
    var s := x + [c] + y;
    assert s[|x|] == c;
    assert s[..|x|] == x;
  }

  /** The text before the first underscore. */
  function TagSegment(title: string): string
    requires '_' in title
  {
    title[..IndexOf(title, '_')]
  }

  /** The text between the first and the second underscore (or the end). */
  function MarkerSegment(title: string): string
    requires '_' in title
  {
    var rest := title[IndexOf(title, '_') + 1..];
    if '_' in rest then rest[..IndexOf(rest, '_')] else rest
  }

  /** The three conditions under which the tag is stripped, stated on the
      title's underscore positions rather than on `split`. */
  predicate StripsScanlatorTag(title: string) {
    '_' in title && TagBeforeMarker(TagSegment(title), MarkerSegment(title))
  }

  /** The segment test of removeScanlator: the second segment, lowercased,
      starts with "ch" or is "prologue", and the first, lowercased, does not
      mention "chapter". */
  predicate TagBeforeMarker(first: string, second: string) {
    && (StartsWith(ToLower(second), "ch") || ToLower(second) == "prologue")
    && !Contains(ToLower(first), "chapter")
  }

  /** The output of removeScanlator is a suffix of its input, so never longer. */
  lemma RemoveScanlatorIsSuffix(title: string)
    ensures var r := RemoveScanlator(title);
      |r| <= |title| && r == title[|title| - |r|..]
  {
    var r := RemoveScanlator(title);
    if r != title {
      var i := IndexOf(title, '_');
      assert r == title[i + 1..];
      assert |title| - |r| == i + 1;
    }
  }

  /** A title built as `tag_marker_tail` loses exactly its tag when the marker
      looks like a chapter and the tag does not mention "chapter". */
  lemma RemoveScanlatorOfTagged(tag: string, marker: string, tail: string)
    requires '_' !in tag && '_' !in marker
    ensures var title := tag + "_" + marker + "_" + tail;
      RemoveScanlator(title) ==
        if (StartsWith(ToLower(marker), "ch") || ToLower(marker) == "prologue")
           && !Contains(ToLower(tag), "chapter")
        then marker + "_" + tail
        else title
  {
    var a := tag + "_" + marker + "_" + tail;
    var rest := marker + "_" + tail;
    assert a == tag + ['_'] + rest;
    IndexOfAfter(tag, '_', rest);
    assert a[|tag| + 1..] == rest;
    assert a[..|tag|] == tag;
    assert TagSegment(a) == tag;
    assert rest == marker + ['_'] + tail;
    IndexOfAfter(marker, '_', tail);
    assert rest[..|marker|] == marker;
    assert MarkerSegment(a) == marker;
  }

  // ---------------------------------------------------------------------------
  // mimeExtensionMap / extenionMimeMap / downloadCover's extension choice
  // ---------------------------------------------------------------------------

  /** `mimeExtensionMap`, in its declaration order. */
  const MimeExtensionTable: seq<(string, string)> := [
    ("image/png", "png"),
    ("image/gif", "gif"),
    ("image/bmp", "bmp"),
    ("image/webp", "webp"),
    ("image/tiff", "tiff"),
    ("image/svg+xml", "svg"),
    ("image/jpeg", "jpg")
  ]

  /** `Object.keys(mimeExtensionMap)` */
  function MimeTypes(): seq<string> {
    seq(|MimeExtensionTable|, i requires 0 <= i < |MimeExtensionTable| => MimeExtensionTable[i].0)
  }

  /** `Object.values(mimeExtensionMap)` */
  function Extensions(): seq<string> {
    seq(|MimeExtensionTable|, i requires 0 <= i < |MimeExtensionTable| => MimeExtensionTable[i].1)
  }

  /** `xs.findIndex((v) => v == x)`: the first position holding `x`, or -1. */
  function FindIndex(xs: seq<string>, x: string): (i: int)
    ensures -1 <= i < |xs|
    ensures i == -1 <==> x !in xs
    ensures 0 <= i ==> xs[i] == x && x !in xs[..i]
  {
    if |xs| == 0 then -1
    else if xs[0] == x then 0
    else
      var j := FindIndex(xs[1..], x);
      assert j >= 0 ==> xs[1..][..j] == xs[1..j + 1];
      assert j >= 0 ==> xs[..j + 1] == [xs[0]] + xs[1..j + 1];
      if j < 0 then -1 else j + 1
  }

  /** `xs.at(i)`: negative positions count from the end; out of range is undefined. */
  function At(xs: seq<string>, i: int): Option<string> {
    if 0 <= i < |xs| then Some(xs[i])
    else if i < 0 && 0 <= |xs| + i then Some(xs[|xs| + i])
    else None
  }

  /** `mimeExtensionMap[mime]`: the extension of a known MIME type, undefined otherwise. */
  function MimeExtension(mime: string): (ext: Option<string>)
    ensures ext.Some? <==> mime in MimeTypes()
    ensures ext.Some? ==> ext.value == Extensions()[FindIndex(MimeTypes(), mime)]
  {
    var i := FindIndex(MimeTypes(), mime);
    if i < 0 then None else Some(Extensions()[i])
  }

  /** `extenionMimeMap(extension)`: the MIME type whose extension is the text
      after the last `.`; an unknown extension makes `findIndex` give -1 and
      `.at(-1)` then picks the last type. */
  function ExtensionToMime(extension: string): (mime: Option<string>)
    ensures mime.Some? && mime.value in MimeTypes()
  {
    var splitExt := Split(extension, '.');
    var ext := if |splitExt| > 1 then splitExt[|splitExt| - 1] else extension;
    var index := FindIndex(Extensions(), ext);
    At(MimeTypes(), index)
  }

  predicate Distinct(xs: seq<string>) {
    forall i, j | 0 <= i < j < |xs| :: xs[i] != xs[j]
  }

  /** In a list without repeats, `findIndex` finds each element at its own position. */
  lemma FindIndexOfDistinct(xs: seq<string>, i: int)
    requires Distinct(xs) && 0 <= i < |xs|
    ensures FindIndex(xs, xs[i]) == i
  {
    var k := FindIndex(xs, xs[i]);
    assert k <= i by {
      assert xs[..i + 1][i] == xs[i];
    }
  }

  /** The table maps types to pairwise distinct extensions, none with a dot. */
  lemma ExtensionsDistinct()
    ensures Distinct(Extensions()) && Distinct(MimeTypes())
    ensures |Extensions()| == |MimeTypes()| == 7
    ensures forall e | e in Extensions() :: '.' !in e
  {
  }

  /** Round trip extension -> type -> extension, for every extension in the table. */
  lemma {:induction false} ExtensionRoundTrip(e: string)
    requires e in Extensions()
    ensures MimeExtension(ExtensionToMime(e).value) == Some(e)
  {
    ExtensionsDistinct();
    var k := FindIndex(Extensions(), e);
    SplitWithoutSeparator(e, '.');
    assert ExtensionToMime(e) == Some(MimeTypes()[k]);
    FindIndexOfDistinct(MimeTypes(), k);
  }

  /** Round trip type -> extension -> type, for every type in the table. */
  lemma {:induction false} MimeRoundTrip(mime: string)
    requires mime in MimeTypes()
    ensures ExtensionToMime(MimeExtension(mime).value) == Some(mime)
  {
    ExtensionsDistinct();
    var k := FindIndex(MimeTypes(), mime);
    var e := Extensions()[k];
    assert MimeExtension(mime) == Some(e);
    SplitWithoutSeparator(e, '.');
    FindIndexOfDistinct(Extensions(), k);
    assert ExtensionToMime(e) == At(MimeTypes(), k);
  }

  /** A file name's extension decides its type: "cover.png" is served as image/png. */
  lemma {:induction false} FileNameMime(base: string, e: string)
    requires e in Extensions()
    ensures ExtensionToMime(base + "." + e) == ExtensionToMime(e)
  {
    ExtensionsDistinct();
    SplitLastSegment(base, '.', e);
    assert base + "." + e == base + ['.'] + e;
    SplitWithoutSeparator(e, '.');
  }

  lemma CoverPngExample()
    ensures ExtensionToMime("cover.png") == Some("image/png")
  {
    ExtensionsDistinct();
    assert "png" == Extensions()[0];
    FileNameMime("cover", "png");
    assert "cover" + "." + "png" == "cover.png";
    SplitWithoutSeparator("png", '.');
    FindIndexOfDistinct(Extensions(), 0);
    assert ExtensionToMime("png") == At(MimeTypes(), 0);
  }

  /** An extension outside the table falls back to the last type, image/jpeg. */
  lemma {:induction false} UnknownExtensionIsJpeg(e: string)
    requires '.' !in e && e !in Extensions()
    ensures ExtensionToMime(e) == Some("image/jpeg")
  {
    SplitWithoutSeparator(e, '.');
  }

  /** downloadCover's choice: the table's extension for the announced content
      type, "jpg" when the header is absent, empty or unknown. */
  function CoverExtension(contentType: Option<string>): (ext: string)
    ensures ext in Extensions()
    ensures contentType.Some? && contentType.value in MimeTypes() ==> MimeExtension(contentType.value) == Some(ext)
    ensures contentType.None? || contentType.value !in MimeTypes() ==> ext == "jpg"
  {
    var fileExtension := "jpg";
    assert Extensions()[6] == fileExtension;
    if contentType.Some? && contentType.value != "" then
      MimeExtension(contentType.value).GetOr(fileExtension)
    else
      fileExtension
  }

  /** The file downloadCover writes: `filePath + "." + fileExtension`. */
  function CoverFilePath(filePath: string, contentType: Option<string>): string {
    filePath + "." + CoverExtension(contentType)
  }

  /** A downloaded cover is later served with the type it was downloaded as
      (when the type is in the table), and as image/jpeg otherwise. */
  lemma {:induction false} CoverFileTypeRoundTrip(filePath: string, contentType: Option<string>)
    ensures contentType.Some? && contentType.value in MimeTypes() ==>
      ExtensionToMime(CoverFilePath(filePath, contentType)) == contentType
    ensures contentType.None? || contentType.value !in MimeTypes() ==>
      ExtensionToMime(CoverFilePath(filePath, contentType)) == Some("image/jpeg")
  {
    if contentType.Some? && contentType.value in MimeTypes() {
      KnownCoverType(filePath, contentType.value);
    } else {
      UnknownCoverType(filePath, contentType);
    }
  }

  lemma KnownCoverType(filePath: string, mime: string)
    requires mime in MimeTypes()
    ensures ExtensionToMime(CoverFilePath(filePath, Some(mime))) == Some(mime)
  {
    var ext := CoverExtension(Some(mime));
    assert MimeExtension(mime) == Some(ext);
    FileNameMime(filePath, ext);
    MimeRoundTrip(mime);
  }

  lemma UnknownCoverType(filePath: string, contentType: Option<string>)
    requires contentType.None? || contentType.value !in MimeTypes()
    ensures ExtensionToMime(CoverFilePath(filePath, contentType)) == Some("image/jpeg")
  {
    var ext := CoverExtension(contentType);
    ExtensionsDistinct();
    assert ext == Extensions()[6];
    FileNameMime(filePath, ext);
    SplitWithoutSeparator(ext, '.');
    FindIndexOfDistinct(Extensions(), 6);
    assert ExtensionToMime(ext) == At(MimeTypes(), 6);
  }

  // ---------------------------------------------------------------------------
  // omit / createKeyValueObject
  // ---------------------------------------------------------------------------

  /** `omit(object, ...keys)` over an object seen as a string-keyed map. */
  function Omit<V>(obj: map<string, V>, keys: seq<string>): (r: map<string, V>)
    ensures forall k :: k in r <==> k in obj && k !in keys
    ensures forall k :: k in r ==> r[k] == obj[k]
  {
    map k | k in obj && k !in keys :: obj[k]
  }

  /** Omitting in two steps is omitting all keys at once; omitting nothing is the identity. */
  lemma OmitCompose<V>(obj: map<string, V>, a: seq<string>, b: seq<string>)
    ensures Omit(Omit(obj, a), b) == Omit(obj, a + b)
    ensures Omit(obj, []) == obj
  {
  }

  /** `createKeyValueObject(keys)`: the `reduce` that maps every key to itself. */
  function CreateKeyValueObject(keys: seq<string>): (r: map<string, string>)
    ensures forall k :: k in r <==> k in keys
    ensures forall k :: k in r ==> r[k] == k
  {
    if |keys| == 0 then map[]
    else
      var key := keys[|keys| - 1];
      assert forall k :: k in keys <==> k in keys[..|keys| - 1] || k == key by {
        assert keys == keys[..|keys| - 1] + [key];
      }
      CreateKeyValueObject(keys[..|keys| - 1])[key := key]
  }
}
