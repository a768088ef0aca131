/** The game title carried by a ROM file name (parse_file_name). */
module Names {
  import opened Text

  /** The title of a ROM file name: the text before its first '(' with white space stripped from both ends. */
  function ParseFileName(fileName: string): (title: string)
    ensures '(' !in title
    ensures IsTrimmed(title)
    ensures |title| <= |fileName|
  {
    Strip(BeforeFirst(fileName, '('))
  }

  /**
    * The title is fixed by the first '(' alone: whatever trimmed text sits, padded only by
    * white space, in front of the first '(' (or in the whole name when there is none) is the title.
    */
  lemma TitleBeforeFirstParen(fileName: string, k: nat, i: nat, title: string)
    requires k <= |fileName|
    requires '(' !in fileName[..k]
    requires k < |fileName| ==> fileName[k] == '('
    requires PaddedAt(fileName[..k], i, title)
    requires IsTrimmed(title)
    ensures ParseFileName(fileName) == title
  {
    BeforeFirstUnique(fileName, '(', k);
    StripUnique(fileName[..k], i, title);
  }

  /** A name without '(' keeps all of its text, stripped. */
  lemma TitleWithoutParen(fileName: string)
    requires '(' !in fileName
    ensures ParseFileName(fileName) == Strip(fileName)
  {
    assert fileName[..|fileName|] == fileName;
    BeforeFirstUnique(fileName, '(', |fileName|);
  }

  /** Parsing a title again leaves it unchanged. */
  lemma ParseFileNameIdempotent(fileName: string)
    ensures ParseFileName(ParseFileName(fileName)) == ParseFileName(fileName)
  {
    var title := ParseFileName(fileName);
    TitleWithoutParen(title);
    StripTrimmed(title);
  }

  /** "SuperGame (Europe).nds" has the title "SuperGame". */
  lemma ParseFileNameExample()
    ensures ParseFileName("SuperGame (Europe).nds") == "SuperGame"
  {
    var s := "SuperGame (Europe).nds";
    var k := 10;
    assert s[..k] == "SuperGame ";
    assert s[k] == '(';
    assert "SuperGame "[..9] == "SuperGame";
    assert "SuperGame "[9..] == " ";
    assert IsSpace(' ');
    TitleBeforeFirstParen(s, k, 0, "SuperGame");
  }

  /** A name that starts with its region tag has an empty title. */
  lemma ParseFileNameEmptyTitle()
    ensures ParseFileName(" (Japan).nds") == ""
  {
    var s := " (Japan).nds";
    assert s[..1] == " ";
    assert IsSpace(' ');
    TitleBeforeFirstParen(s, 1, 0, "");
  }
}
