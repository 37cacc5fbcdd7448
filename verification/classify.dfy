/** Folder/file classification of a listed link and the hidden-name flag
    (dist/utils/classify.js). The two regular expressions are given their
    meaning as predicates over positions, and the classifier computes them
    with a last-dot search and a left-to-right keyword scan. */
module Classify {
  import opened Wrappers
  import opened Strs
  import Urls

  datatype Kind = Folder | File

  /** `s.split('/').filter(Boolean).pop() || ''` */
  function LastPiece(s: string): string {
    var parts := NonEmpty(Split(s, '/'));
    if |parts| == 0 then "" else parts[|parts| - 1]
  }

  /** The piece after the last '/' is the last piece when it is not empty. */
  lemma LastPieceAfterSlash(prefix: string, name: string)
    requires name != "" && '/' !in name
    ensures LastPiece(prefix + "/" + name) == name
  {
    assert prefix + "/" + name == prefix + ['/'] + name;
    SplitAt(prefix, '/', name);
    SplitFree(name, '/');
    NonEmptyAppend(Split(prefix, '/'), [name]);
    assert [name][..0] == [];
  }

  // ---------------------------------------------------------------------
  // `/^[^.].*\.[^.]+$/`
  // ---------------------------------------------------------------------

  /** The pattern matches `name` with its `\.` at index `j`: a first
      character other than '.', then `.*` (no line terminator) up to `j`,
      then at least one character, none of them '.'. */
  predicate ExtensionAt(name: string, j: int) {
    1 <= j < |name| - 1 && name[0] != '.' && name[j] == '.'
    && (forall k | 1 <= k < j :: !IsLineTerminator(name[k]))
    && (forall k | j < k < |name| :: name[k] != '.')
  }

  /** `/^[^.].*\.[^.]+$/.test(name)` */
  predicate ExtensionMatch(name: string) {
    exists j | 0 <= j < |name| :: ExtensionAt(name, j)
  }

  /** The test the classifier computes: only the last dot can be the
      pattern's `\.`, since everything after it must be dot-free. */
  predicate HasExtension(name: string) {
    match LastIndexOf(name, '.')
    case None => false
    case Some(j) => ExtensionAt(name, j)
  }

  /** The last-dot test decides the regular expression exactly. */
  lemma ExtensionUsesLastDot(name: string)
    ensures HasExtension(name) <==> ExtensionMatch(name)
  {
    if ExtensionMatch(name) {
      var j :| 0 <= j < |name| && ExtensionAt(name, j);
      assert name[j] == '.';
    }
  }

  // ---------------------------------------------------------------------
  // `/\b(dir|folder|directory)\b/i`
  // ---------------------------------------------------------------------

  /** `\b` at position `p` (0 <= p <= |t|): exactly one side is a word character. */
  predicate Boundary(t: string, p: int) {
    (0 < p <= |t| && IsWordChar(t[p - 1])) != (0 <= p < |t| && IsWordChar(t[p]))
  }

  /** The word `w` occurs at `i`, ignoring ASCII case, with `\b` on both sides. */
  predicate WordAt(t: string, i: int, w: string) {
    0 <= i && i + |w| <= |t| && Lower(t[i..i + |w|]) == w && Boundary(t, i) && Boundary(t, i + |w|)
  }

  /** One of the three alternatives matches at `i`. */
  predicate KeywordAt(t: string, i: int) {
    WordAt(t, i, "dir") || WordAt(t, i, "folder") || WordAt(t, i, "directory")
  }

  /** `/\b(dir|folder|directory)\b/i.test(t)` */
  predicate MentionsFolder(t: string) {
    exists i | 0 <= i <= |t| :: KeywordAt(t, i)
  }

  /** Leftmost position at or after `i` where a keyword matches. */
  function FindKeyword(t: string, i: nat): (r: Option<nat>)
    requires i <= |t|
    ensures r.Some? ==> i <= r.value <= |t| && KeywordAt(t, r.value)
    ensures forall q | i <= q <= |t| && (r.None? || q < r.value) :: !KeywordAt(t, q)
    decreases |t| - i
  {
    if KeywordAt(t, i) then Some(i)
    else if i == |t| then None
    else FindKeyword(t, i + 1)
  }

  /** The scan finds a keyword exactly when the regular expression matches. */
  lemma FindKeywordDecides(t: string)
    ensures FindKeyword(t, 0).Some? <==> MentionsFolder(t)
  {
    if MentionsFolder(t) {
      var i :| 0 <= i <= |t| && KeywordAt(t, i);
    }
  }

  // ---------------------------------------------------------------------
  // classifyEntry, detectHidden
  // ---------------------------------------------------------------------

  /** `classifyEntry(href, metadataText)`: a trailing '/' means folder; a last
      piece with an extension means file; a whole-word keyword in the
      metadata means folder; anything else is a file. */
  function ClassifyEntry(href: string, metadataText: string): (r: Kind)
    ensures EndsWith(href, "/") ==> r == Folder
    ensures !EndsWith(href, "/") && ExtensionMatch(LastPiece(href)) ==> r == File
  {
    ExtensionUsesLastDot(LastPiece(href));
    if EndsWith(href, "/") then Folder
    else if HasExtension(LastPiece(href)) then File
    else if FindKeyword(metadataText, 0).Some? then Folder
    else File
  }

  /** The classification in terms of the two regular expressions: a folder
      exactly when the link ends with '/', or its last piece has no
      extension and the metadata mentions a folder keyword. */
  lemma ClassifyEntryMeaning(href: string, metadataText: string)
    ensures ClassifyEntry(href, metadataText) == Folder <==>
              EndsWith(href, "/") || (!ExtensionMatch(LastPiece(href)) && MentionsFolder(metadataText))
  {
    ExtensionUsesLastDot(LastPiece(href));
    FindKeywordDecides(metadataText);
  }

  /** Unit-test witness: a trailing '/' is a folder. */
  lemma ClassifyTrailingSlashExample()
    ensures ClassifyEntry("https://x/y/z/", "") == Folder
  {
    assert EndsWith("https://x/y/z/", "/");
  }

  lemma LastPieceExample(name: string)
    requires name == "file.txt" || name == "thing"
    ensures LastPiece("https://x/y/" + name) == name
  {
    LastPieceAfterSlash("https://x/y", name);
    assert "https://x/y" + "/" + name == "https://x/y/" + name;
  }

  /** Unit-test witness: an extension makes a file, whatever the metadata says. */
  lemma ClassifyExtensionExample(meta: string)
    ensures ClassifyEntry("https://x/y/file.txt", meta) == File
  {
    LastPieceExample("file.txt");
    assert "https://x/y/" + "file.txt" == "https://x/y/file.txt";
    assert ExtensionAt("file.txt", 4);
    assert !EndsWith("https://x/y/file.txt", "/");
  }

  lemma DirKeywordExample()
    ensures MentionsFolder(" <dir> ")
  {
    assert " <dir> "[2..5] == "dir";
    assert WordAt(" <dir> ", 2, "dir");
    assert KeywordAt(" <dir> ", 2);
  }

  /** Unit-test witness: the keyword "dir" makes an extension-less link a folder. */
  lemma ClassifyKeywordExample()
    ensures ClassifyEntry("https://x/y/thing", " <dir> ") == Folder
  {
    LastPieceExample("thing");
    assert "https://x/y/" + "thing" == "https://x/y/thing";
    assert !EndsWith("https://x/y/thing", "/");
    assert !ExtensionMatch("thing");
    DirKeywordExample();
    ClassifyEntryMeaning("https://x/y/thing", " <dir> ");
  }

  /** `detectHidden(decodedName)`: a dot-name other than "." and "..". */
  function DetectHidden(decodedName: string): (r: bool)
    ensures r <==> |decodedName| >= 2 && decodedName[0] == '.'
                   && !(|decodedName| == 2 && decodedName[1] == '.')
  {
    Urls.HiddenNameShape(decodedName);
    Urls.IsHiddenName(decodedName)
  }

  /** The unit-test witnesses of `detectHidden`. */
  lemma DetectHiddenExamples()
    ensures DetectHidden(".env") && !DetectHidden(".") && !DetectHidden("..") && !DetectHidden("env")
  {
  }
}
