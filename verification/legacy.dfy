/** The pure URL helpers of the legacy single-file client
    (src/folder.api.js). They work on the text of absolute URLs. */
module Legacy {
  import opened Wrappers
  import opened Strs

  datatype UrlType = Hidden | FolderType | FileType | Unknown

  /** `isFolder(url)`: the last character is '/' (false for ""). */
  function IsFolder(url: string): (r: bool)
    ensures r <==> EndsWith(url, "/")
  {
    assert EndsWith(url, "/") ==> url[|url| - 1..] == "/";
    |url| > 0 && url[|url| - 1] == '/'
  }

  /** `isFile(url)` */
  function IsFile(url: string): bool { !IsFolder(url) }

  /** Characters `from` to the end are no line terminators. */
  predicate OneLine(url: string, from: nat) {
    forall k | from <= k < |url| :: !IsLineTerminator(url[k])
  }

  /** `/\/\..+$/` matches with its "/." at index `i`: at least one more
      character follows, and `.` does not cross a line terminator. */
  predicate HiddenAt(url: string, i: int) {
    0 <= i && i + 2 < |url| && url[i] == '/' && url[i + 1] == '.' && OneLine(url, i + 2)
  }

  predicate MatchesHidden(url: string) {
    exists i | 0 <= i < |url| :: HiddenAt(url, i)
  }

  /** The search for a match at `i` or before, scanning leftwards; the
      characters after `i + 2` are known to hold no line terminator. */
  function HiddenFrom(url: string, i: int): (r: bool)
    requires -1 <= i <= |url| - 3 && OneLine(url, i + 3)
    ensures r <==> exists j | 0 <= j <= i :: HiddenAt(url, j)
    decreases i + 1
  {
    if i < 0 then false
    else if IsLineTerminator(url[i + 2]) then
      assert forall j | 0 <= j <= i :: !HiddenAt(url, j) by {
        forall j | 0 <= j <= i
          ensures !HiddenAt(url, j)
        {
          assert j + 2 <= i + 2 < |url|;
        }
      }
      false
    else if url[i] == '/' && url[i + 1] == '.' then
      assert HiddenAt(url, i);
      true
    else
      var r := HiddenFrom(url, i - 1);
      assert !HiddenAt(url, i);
      r
  }

  /** `isHiddenFileOrFolder(url)`: a "/." followed by at least one more
      character through the end of the URL, on one line. */
  function IsHiddenFileOrFolder(url: string): (r: bool)
    ensures r <==> MatchesHidden(url)
  {
    if |url| < 3 then false else HiddenFrom(url, |url| - 3)
  }

  /** `urlType(url)`: hidden first, then folder, then file. */
  function UrlTypeOf(url: string): (r: UrlType)
    ensures r != Unknown
    ensures r == Hidden <==> MatchesHidden(url)
    ensures r == FolderType <==> !MatchesHidden(url) && EndsWith(url, "/")
    ensures r == FileType <==> !MatchesHidden(url) && !EndsWith(url, "/")
  {
    if IsHiddenFileOrFolder(url) then Hidden
    else if IsFolder(url) then FolderType
    else if IsFile(url) then FileType
    else Unknown
  }

  /** A name starting with a dot after a '/' makes the URL hidden, folder or file. */
  lemma DotNameIsHidden(prefix: string, name: string)
    requires |name| >= 2 && name[0] == '.' && forall k | 0 <= k < |name| :: !IsLineTerminator(name[k])
    ensures UrlTypeOf(prefix + "/" + name) == Hidden
  {
    var url := prefix + "/" + name;
    assert url[|prefix|] == '/' && url[|prefix| + 1] == '.';
    assert forall k | |prefix| + 2 <= k < |url| :: url[k] == name[k - |prefix| - 1];
    assert HiddenAt(url, |prefix|);
  }

  /** `parentFolder(url)`: drop the last two '/'-separated pieces and end with '/'. */
  function ParentFolder(url: string): (r: string)
    ensures EndsWith(r, "/")
  {
    var parts := Split(url, '/');
    var kept := if |parts| >= 2 then parts[..|parts| - 2] else [];
    Join(kept, '/') + "/"
  }

  /** The pieces of a folder URL: those of the prefix, the name, and the
      empty piece after the final '/'. */
  lemma FolderPieces(prefix: string, name: string)
    requires '/' !in name
    ensures Split(prefix + "/" + name + "/", '/') == Split(prefix, '/') + [name, ""]
  {
    assert prefix + "/" + name + "/" == prefix + ['/'] + (name + ['/'] + "");
    SplitAt(prefix, '/', name + ['/'] + "");
    SplitAt(name, '/', "");
    SplitFree(name, '/');
    SplitFree("", '/');
  }

  /** The parent of a folder URL is the URL up to the '/' before its last name. */
  lemma ParentOfFolder(prefix: string, name: string)
    requires '/' !in name
    ensures ParentFolder(prefix + "/" + name + "/") == prefix + "/"
  {
    FolderPieces(prefix, name);
    var parts := Split(prefix + "/" + name + "/", '/');
    assert parts[..|parts| - 2] == Split(prefix, '/');
    JoinSplit(prefix, '/');
  }

  /** `urlToFoldername(url)`: the piece before the final '/', `None` (the
      source's `undefined`) when the URL has no '/'. */
  function UrlToFoldername(url: string): (r: Option<string>)
    ensures r.None? <==> '/' !in url
    ensures r.Some? ==> '/' !in r.value
  {
    var pieces := Split(url, '/');
    SplitPiecesFree(url, '/');
    SplitOnePiece(url);
    if |pieces| >= 2 then Some(pieces[|pieces| - 2]) else None
  }

  lemma SplitOnePiece(url: string)
    ensures |Split(url, '/')| == 1 <==> '/' !in url
  {
    if '/' !in url {
      SplitFree(url, '/');
    } else {
      var i :| 0 <= i < |url| && url[i] == '/';
      assert url == url[..i] + ['/'] + url[i + 1..];
      SplitAt(url[..i], '/', url[i + 1..]);
    }
  }

  /** The folder name of a folder URL is its last name. */
  lemma FoldernameOfFolder(prefix: string, name: string)
    requires '/' !in name
    ensures UrlToFoldername(prefix + "/" + name + "/") == Some(name)
  {
    FolderPieces(prefix, name);
  }

  /** `urlToFilename(url)`: the non-empty text after the last '/', else the
      whole URL (when `/\/([^/]+)$/` does not match). */
  function UrlToFilename(url: string): (r: string)
    ensures '/' in url && !EndsWith(url, "/") ==>
              r != "" && '/' !in r && EndsWith(url, "/" + r)
    ensures '/' !in url || EndsWith(url, "/") ==> r == url
  {
    match LastIndexOf(url, '/')
    case None => url
    case Some(i) =>
      if i + 1 < |url| then
        var name := url[i + 1..];
        assert forall k | 0 <= k < |name| :: name[k] == url[i + 1 + k];
        assert url[|url| - |"/" + name|..] == "/" + name;
        name
      else
        assert url[|url| - 1..] == "/";
        url
  }

  /** The file name of a path is its last name. */
  lemma FilenameOfFile(prefix: string, name: string)
    requires name != "" && '/' !in name
    ensures UrlToFilename(prefix + "/" + name) == name
  {
    var url := prefix + "/" + name;
    var i := |prefix|;
    assert url[i] == '/';
    assert forall k | i < k < |url| :: url[k] == name[k - i - 1];
    assert url[i + 1..] == name;
  }
}
