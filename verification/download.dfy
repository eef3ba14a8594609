/** The string shaping around the YouTube search and the MP3 conversion. */
module Download {
  import opened Wrappers

  /** The address every search result's `url_suffix` is appended to. */
  const SITE := "https://www.youtube.com"

  /** Reads back the suffix of an address on the site. */
  function SuffixOf(url: string): Option<string>
  {
    if |url| >= |SITE| && url[..|SITE|] == SITE then Some(url[|SITE|..]) else None
  }

  /** `search_youtube`, given the `url_suffix` of each result found: no
      address when nothing was found, otherwise the site address followed by
      the first result's suffix. */
  function VideoUrl(suffixes: seq<string>): (url: Option<string>)
    ensures url.None? <==> suffixes == []
    ensures url.Some? ==> SuffixOf(url.value) == Some(suffixes[0])
  {
    if suffixes == [] then None
    else
      var u := SITE + suffixes[0];
      assert u[..|SITE|] == SITE;
      Some(u)
  }

  /** Python truthiness of an optional string: present and non-empty. */
  predicate Truthy(url: Option<string>)
  {
    url.Some? && url.value != ""
  }

  /** `download_song_by_search` goes on to download exactly when the search
      found something, even a result with an empty suffix. */
  lemma DownloadIffFound(suffixes: seq<string>)
    ensures Truthy(VideoUrl(suffixes)) <==> suffixes != []
  {
    if suffixes != [] {
      assert |VideoUrl(suffixes).value| >= |SITE|;
    }
  }

  /** The index of the last `c` in `s`, or -1 when there is none
      (Python's `str.rfind`). */
  function LastIndexOf(s: string, c: char): (k: int)
    ensures -1 <= k < |s|
    ensures k >= 0 ==> s[k] == c
    ensures forall j :: k < j < |s| ==> s[j] != c
    decreases |s|
  {
    if s == [] then -1
    else if s[|s| - 1] == c then |s| - 1
    else LastIndexOf(s[..|s| - 1], c)
  }

  predicate HasNonDot(s: string)
  {
    exists i :: 0 <= i < |s| && s[i] != '.'
  }

  /** The last path component of `path`. */
  function BaseName(path: string): string
  {
    path[LastIndexOf(path, '/') + 1..]
  }

  /** A dot at `d` may start an extension of `path`: it lies in the last path
      component, and something other than dots comes before it there. */
  predicate ExtensionAt(path: string, d: int)
  {
    var sep := LastIndexOf(path, '/');
    sep < d < |path| && path[d] == '.' && HasNonDot(path[sep + 1..d])
  }

  /** Where POSIX `os.path.splitext` starts the extension of `path`: at the
      last dot when that dot may start one, otherwise at the end. */
  function ExtStart(path: string): (k: int)
    ensures 0 <= k <= |path|
  {
    var sep := LastIndexOf(path, '/');
    var dot := LastIndexOf(path, '.');
    if dot > sep && HasNonDot(path[sep + 1..dot]) then dot else |path|
  }

  /** A dot that may start an extension lies at or before the last dot, and
      then the last dot may start one too. */
  lemma ExtensionFound(path: string, d: int)
    requires ExtensionAt(path, d)
    ensures var sep, dot := LastIndexOf(path, '/'), LastIndexOf(path, '.');
      d <= dot && sep < dot && HasNonDot(path[sep + 1..dot])
  {
    var sep, dot := LastIndexOf(path, '/'), LastIndexOf(path, '.');
    var i :| 0 <= i < |path[sep + 1..d]| && path[sep + 1..d][i] != '.';
    assert d <= dot;
    assert path[sep + 1..dot][i] == path[sep + 1..d][i];
  }

  /** The extension starts at the last dot that may start one, and no dot and
      no slash follows it; when no dot may start one, there is none. */
  lemma ExtStartSpec(path: string)
    ensures ExtStart(path) < |path| ==>
      ExtensionAt(path, ExtStart(path)) && HasNonDot(BaseName(path[..ExtStart(path)]))
    ensures forall i :: ExtStart(path) < i < |path| ==> path[i] != '.' && path[i] != '/'
    ensures ExtStart(path) == |path| ==> forall d :: 0 <= d < |path| ==> !ExtensionAt(path, d)
  {
    var sep, dot := LastIndexOf(path, '/'), LastIndexOf(path, '.');
    if dot > sep && HasNonDot(path[sep + 1..dot]) {
      LastIndexOfPrefix(path, dot, '/');
    } else {
      forall d | 0 <= d < |path|
        ensures !ExtensionAt(path, d)
      {
        if ExtensionAt(path, d) {
          ExtensionFound(path, d);
          assert false;
        }
      }
    }
  }

  /** `os.path.splitext` on a POSIX path: (root, extension). */
  function SplitExt(path: string): (parts: (string, string))
    ensures parts.0 + parts.1 == path
  {
    var k := ExtStart(path);
    assert path[..k] + path[k..] == path;
    (path[..k], path[k..])
  }

  /** The extension is empty or a dot followed by neither dots nor slashes.
      It is split off exactly when some dot may start one, and then at the
      last such dot, leaving a root whose last component is not all dots. */
  lemma SplitExtSpec(path: string)
    ensures SplitExt(path).0 + SplitExt(path).1 == path
    ensures SplitExt(path).1 == "" || SplitExt(path).1[0] == '.'
    ensures forall i :: 1 <= i < |SplitExt(path).1| ==>
      SplitExt(path).1[i] != '.' && SplitExt(path).1[i] != '/'
    ensures SplitExt(path).1 != "" ==>
      ExtensionAt(path, |SplitExt(path).0|) && HasNonDot(BaseName(SplitExt(path).0))
    ensures SplitExt(path).1 == "" ==> forall d :: 0 <= d < |path| ==> !ExtensionAt(path, d)
  {
    var k := ExtStart(path);
    ExtStartSpec(path);
    if k == |path| {
      assert SplitExt(path).1 == [];
    } else {
      var root, ext := path[..k], path[k..];
      assert SplitExt(path) == (root, ext) && |root| == k;
      assert forall i :: 1 <= i < |ext| ==> ext[i] == path[k + i];
    }
  }

  /** The name `convert_to_mp3` gives the converted file: the downloaded
      name with its extension, if any, replaced by ".mp3". */
  function Mp3Name(filename: string): (name: string)
    ensures |name| >= 4 && name[|name| - 4..] == ".mp3"
    ensures name[..|name| - 4] + SplitExt(filename).1 == filename
    ensures SplitExt(filename).1 == "" ==> name == filename + ".mp3"
  {
    var name := SplitExt(filename).0 + ".mp3";
    assert name[..|name| - 4] == SplitExt(filename).0;
    name
  }

  /** Appending text without `c` leaves the last `c` where it was. */
  lemma {:induction false} LastIndexOfAppend(s: string, t: string, c: char)
    requires forall i :: 0 <= i < |t| ==> t[i] != c
    ensures LastIndexOf(s + t, c) == LastIndexOf(s, c)
    decreases |t|
  {
    if t != [] {
      var k := |t| - 1;
      assert (s + t)[..|s + t| - 1] == s + t[..k];
      LastIndexOfAppend(s, t[..k], c);
    } else {
      assert s + t == s;
    }
  }

  /** Cutting `s` after its last `c` or later keeps that `c` the last one. */
  lemma LastIndexOfPrefix(s: string, n: nat, c: char)
    requires LastIndexOf(s, c) < n <= |s|
    ensures LastIndexOf(s[..n], c) == LastIndexOf(s, c)
  {
    assert s[..n] + s[n..] == s;
    LastIndexOfAppend(s[..n], s[n..], c);
  }

  /** Appending an extension (a dot followed by neither dots nor slashes) to
      a root whose last component has a character other than a dot: the
      extension starts at the appended dot. */
  lemma ExtStartAppend(r: string, e: string)
    requires HasNonDot(BaseName(r))
    requires |e| >= 1 && e[0] == '.'
    requires forall i :: 1 <= i < |e| ==> e[i] != '.' && e[i] != '/'
    ensures ExtStart(r + e) == |r|
  {
    var p := r + e;
    LastIndexOfAppend(r, e, '/');
    var sep := LastIndexOf(p, '/');
    assert LastIndexOf(p, '.') == |r| by {
      assert p[|r|] == '.';
      assert forall j :: |r| < j < |p| ==> p[j] == e[j - |r|];
    }
    assert p[sep + 1..|r|] == BaseName(r);
  }

  /** Such a root and extension split back apart. */
  lemma SplitExtAppend(r: string, e: string)
    requires HasNonDot(BaseName(r))
    requires |e| >= 1 && e[0] == '.'
    requires forall i :: 1 <= i < |e| ==> e[i] != '.' && e[i] != '/'
    ensures SplitExt(r + e) == (r, e)
  {
    ExtStartAppend(r, e);
    assert (r + e)[..|r|] == r && (r + e)[|r|..] == e;
  }

  /** Splitting the converted name gives back the stem of the downloaded
      name and ".mp3", whenever that stem's last component has a character
      other than a dot (so it is not hidden-file-like). */
  lemma Mp3NameSplits(filename: string)
    requires HasNonDot(BaseName(SplitExt(filename).0))
    ensures SplitExt(Mp3Name(filename)) == (SplitExt(filename).0, ".mp3")
  {
    var r := SplitExt(filename).0;
    assert Mp3Name(filename) == r + ".mp3";
    SplitExtAppend(r, ".mp3");
  }

  /** The extension of "Song.mp4" starts at its only dot. */
  lemma ExtStartOfMp4()
    ensures ExtStart("Song.mp4") == 4
  {
    var p := "Song.mp4";
    assert LastIndexOf(p, '/') == -1 by {
      assert p[0] != '/' && p[1] != '/' && p[2] != '/' && p[3] != '/';
      assert p[4] != '/' && p[5] != '/' && p[6] != '/' && p[7] != '/';
    }
    assert LastIndexOf(p, '.') == 4 by {
      assert p[4] == '.' && p[5] != '.' && p[6] != '.' && p[7] != '.';
    }
    assert HasNonDot(p[0..4]) by {
      assert p[0..4][0] == 'S';
    }
  }

  /** A downloaded "Song.mp4" is converted to "Song.mp3". */
  lemma Mp3OfMp4()
    ensures Mp3Name("Song.mp4") == "Song.mp3"
  {
    ExtStartOfMp4();
    assert SplitExt("Song.mp4").0 == "Song.mp4"[..4] == "Song";
  }

  /** A name whose only dot leads it has no extension: ".webm" becomes
      ".webm.mp3". */
  lemma Mp3OfDotName()
    ensures Mp3Name(".webm") == ".webm.mp3"
  {
    var p := ".webm";
    assert LastIndexOf(p, '/') == -1 by {
      assert p[0] != '/' && p[1] != '/' && p[2] != '/' && p[3] != '/' && p[4] != '/';
    }
    assert LastIndexOf(p, '.') == 0 by {
      assert p[0] == '.' && p[1] != '.' && p[2] != '.' && p[3] != '.' && p[4] != '.';
    }
    assert !HasNonDot(p[0..0]);
    assert ExtStart(p) == |p|;
  }
}
