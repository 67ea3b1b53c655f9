/**
 The suggested name of the downloaded CSV: the stored origin name (or a fixed
 fallback when none is stored), cut before its last `.` with
 `rsplit(".", 1)[0]`, followed by `_edited.csv`.
 */
module FileName {
  import opened Wrappers

  /** The name used when the session holds no origin name. */
  const FallbackName: string := "edited_sheet.csv"

  /** Appended to every export name. */
  const EditedSuffix: string := "_edited.csv"

  /** Position of the last occurrence of `c` in `s`, if any. */
  function LastIndexOf(s: string, c: char): (r: Option<nat>)
    ensures r.None? ==> forall k :: 0 <= k < |s| ==> s[k] != c
    ensures r.Some? ==> r.value < |s| && s[r.value] == c
    ensures r.Some? ==> forall k :: r.value < k < |s| ==> s[k] != c
    decreases |s|
  {
    if s == [] then None
    else if s[|s| - 1] == c then Some(|s| - 1)
    else LastIndexOf(s[..|s| - 1], c)
  }

  /** `s.rsplit(sep, 1)` for a one-character separator: one part when `sep`
      does not occur, otherwise the text before and after its last
      occurrence. Joining the parts with `sep` gives `s` back. */
  function RSplitOnce(s: string, sep: char): (parts: seq<string>)
    ensures |parts| == 1 || |parts| == 2
    ensures |parts| == 1 <==> sep !in s
    ensures |parts| == 1 ==> parts[0] == s
    ensures |parts| == 2 ==> s == parts[0] + [sep] + parts[1] && sep !in parts[1]
  {
    match LastIndexOf(s, sep)
    case None => [s]
    case Some(i) =>
      assert s == s[..i] + [sep] + s[i + 1..];
      [s[..i], s[i + 1..]]
  }

  /** The download name of google_sheet_display.py lines 96-100. It always
      ends with `_edited.csv`, and what precedes the suffix is a prefix of the
      stored name (or of the fallback). */
  function ExportName(stored: Option<string>): (name: string)
    ensures |name| >= |EditedSuffix|
    ensures name[|name| - |EditedSuffix|..] == EditedSuffix
    ensures var origin := stored.GetOr(FallbackName);
      var base := name[..|name| - |EditedSuffix|];
      |base| <= |origin| && base == origin[..|base|]
  {
    var parts := RSplitOnce(stored.GetOr(FallbackName), '.');
    var name := parts[0] + EditedSuffix;
    assert name[..|name| - |EditedSuffix|] == parts[0];
    name
  }

  /** A name with a `.`: the export name keeps everything before the last
      `.` and drops the extension. */
  lemma ExportNameDropsExtension(origin: string, i: nat)
    requires i < |origin| && origin[i] == '.'
    requires forall k :: i < k < |origin| ==> origin[k] != '.'
    ensures ExportName(Some(origin)) == origin[..i] + EditedSuffix
  {
    assert LastIndexOf(origin, '.').Some?;
    var j := LastIndexOf(origin, '.').value;
    assert origin[j] == '.';
    assert j == i;
  }

  /** A name without a `.` is kept whole. */
  lemma ExportNameWithoutDot(origin: string)
    requires '.' !in origin
    ensures ExportName(Some(origin)) == origin + EditedSuffix
  {
  }

  /** The name stored by a conversion gives `image_extracted_edited.csv`. */
  lemma ExportNameAfterConvert()
    ensures ExportName(Some("image_extracted.csv")) == "image_extracted_edited.csv"
  {
    ExportNameDropsExtension("image_extracted.csv", 15);
  }

  /** With no stored name the fallback gives `edited_sheet_edited.csv`. */
  lemma ExportNameFallback()
    ensures ExportName(None) == "edited_sheet_edited.csv"
  {
    ExportNameDropsExtension(FallbackName, 12);
  }

  /** Only the last extension goes. */
  lemma ExportNameNestedExtension()
    ensures ExportName(Some("a.b.c")) == "a.b_edited.csv"
  {
    ExportNameDropsExtension("a.b.c", 3);
  }

  /** The extension goes whatever its case. */
  lemma ExportNameUpperCaseExtension()
    ensures ExportName(Some("invoice.PNG")) == "invoice_edited.csv"
  {
    ExportNameDropsExtension("invoice.PNG", 7);
  }

  /** An extension-less name is kept whole. */
  lemma ExportNameBareName()
    ensures ExportName(Some("report")) == "report_edited.csv"
  {
    ExportNameWithoutDot("report");
  }
}
