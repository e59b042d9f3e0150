/**
 * Turning imported text into a title and a body (src/utils/contentExtraction.ts):
 * the first line becomes the title when it is short enough, and a file's name
 * loses its extension.
 */
module ContentExtraction {
  import Text
  import opened Types

  /** The title used when the text has no usable first line. */
  const Untitled: string := "Untitled Document"

  /** The longest first line, after trimming, that is taken as a title. */
  const MaxTitleLength: nat := 100

  datatype Extracted = Extracted(title: string, content: string)

  /**
   * `extractContentFromText`: a short first line becomes the title and the rest
   * of the text, trimmed, the content; otherwise the placeholder title and the
   * whole text unchanged.
   */
  function ExtractContentFromText(text: string): (r: Extracted)
    ensures '\n' !in r.title
    ensures r.title == Untitled || |r.title| <= MaxTitleLength
    ensures '\n' !in text ==> r == Extracted(Untitled, text)
  {
    var lines := Text.SplitOn(text, '\n');
    var title := Text.Trim(lines[0]);
    Text.SplitOnFirst(text, '\n');
    if |title| <= MaxTitleLength && |lines| > 1 then
      Extracted(title, Text.Trim(Text.JoinWith(lines[1..], '\n')))
    else
      Extracted(Untitled, text)
  }

  /**
   * With the first line break at offset i, the title is the trimmed text before
   * it and the content the trimmed text after it, unless that title is longer
   * than 100 characters, in which case the text is kept whole.
   */
  lemma ExtractAtFirstNewline(text: string, i: nat)
    requires i < |text| && text[i] == '\n' && '\n' !in text[..i]
    ensures var r := ExtractContentFromText(text);
      if |Text.Trim(text[..i])| <= MaxTitleLength
      then r == Extracted(Text.Trim(text[..i]), Text.Trim(text[i + 1..]))
      else r == Extracted(Untitled, text)
  {
    var lines := Text.SplitOn(text, '\n');
    Text.SplitOnFirst(text, '\n');
    Text.JoinSplit(text, '\n');
    var k := |lines[0]|;
    // the first piece ends at the first line break, which is at i
    assert k == i;
    assert lines[0] == text[..i];
    assert text == lines[0] + ['\n'] + Text.JoinWith(lines[1..], '\n');
    assert text[i + 1..] == Text.JoinWith(lines[1..], '\n');
  }

  /**
   * A name ends in an extension at offset i when a '.' stands there, is
   * followed by at least one character, and nothing after it is a '.' or '/':
   * the match of `/\.[^/.]+$/`.
   */
  predicate IsExtensionAt(name: string, i: int) {
    0 <= i < |name| - 1 && name[i] == '.'
    && forall j :: i < j < |name| ==> name[j] != '.' && name[j] != '/'
  }

  /** Scans leftwards from offset j, past characters that may follow the dot, for the extension's dot. */
  function ExtensionDot(name: string, j: nat): (r: Option<nat>)
    requires j <= |name|
    requires forall k :: j <= k < |name| ==> name[k] != '.' && name[k] != '/'
    ensures r.Some? ==> IsExtensionAt(name, r.value)
    ensures r.None? ==> forall i :: !IsExtensionAt(name, i)
  {
    if j == 0 then None
    else if name[j - 1] == '.' then (if j < |name| then Some(j - 1) else None)
    else if name[j - 1] == '/' then None
    else ExtensionDot(name, j - 1)
  }

  /**
   * `file.name.replace(/\.[^/.]+$/, "")`: drops the extension when there is
   * one and otherwise returns the name unchanged.
   */
  function StripExtension(name: string): (r: string)
    ensures |r| <= |name| && r == name[..|r|]
    ensures |r| < |name| ==> IsExtensionAt(name, |r|)
    ensures (forall i :: !IsExtensionAt(name, i)) ==> r == name
    ensures forall i :: IsExtensionAt(name, i) ==> r == name[..i]
  {
    ExtensionIsUnique(name);
    match ExtensionDot(name, |name|)
    case Some(i) => name[..i]
    case None => name
  }

  /** A name has at most one extension dot: the last dot, when no '/' follows it. */
  lemma ExtensionIsUnique(name: string)
    ensures forall i, j :: IsExtensionAt(name, i) && IsExtensionAt(name, j) ==> i == j
  {
  }

  /** "a.b.txt" loses only its last extension. */
  lemma StripExtensionExample()
    ensures StripExtension("a.b.txt") == "a.b"
  {
    assert IsExtensionAt("a.b.txt", 3);
    assert ExtensionDot("a.b.txt", 7) == Some(3);
  }
}
