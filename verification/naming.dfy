/**
 * The pure part of the upload handler: the configured directory names, the
 * image-extension list, Node's `path.extname`, the first-occurrence
 * `String.prototype.replace`, the choice of subdirectory, the sanitised
 * name and the two URLs returned to the client.
 */
module Naming {

  const WorkDir := "data"
  const ServeDir := "public"
  const TmpDir := "tmp"
  const FileDir := "f"
  const ImgDir := "i"

  /** Extensions (without the dot) that send an upload to the image subdirectory. */
  const ImageExtensions: seq<string> := ["png", "jpg", "jpeg", "bmp"]

  // ---------------------------------------------------------------------------
  // String searching

  /** `s.indexOf(c)`: the first position of `c` in `s`, or -1. */
  function IndexOf(s: string, c: char): (r: int)
    ensures -1 <= r < |s|
    ensures r >= 0 ==> s[r] == c
    ensures forall j :: 0 <= j < |s| && (r < 0 || j < r) ==> s[j] != c
  {
    if s == [] then -1
    else if s[0] == c then 0
    else
      var k := IndexOf(s[1..], c);
      if k < 0 then -1 else k + 1
  }

  /** `s.lastIndexOf(c)`: the last position of `c` in `s`, or -1. */
  function LastIndexOf(s: string, c: char): (r: int)
    ensures -1 <= r < |s|
    ensures r >= 0 ==> s[r] == c
    ensures forall j :: r < j < |s| ==> s[j] != c
  {
    if s == [] then -1
    else if s[|s| - 1] == c then |s| - 1
    else LastIndexOf(s[..|s| - 1], c)
  }

  /** `xs.indexOf(x)` on an array of strings: the first position of `x`, or -1. */
  function Find(xs: seq<string>, x: string): (r: int)
    ensures -1 <= r < |xs|
    ensures r < 0 <==> x !in xs
    ensures r >= 0 ==> xs[r] == x
  {
    if xs == [] then -1
    else if xs[0] == x then 0
    else
      var k := Find(xs[1..], x);
      assert xs == [xs[0]] + xs[1..];
      if k < 0 then -1 else k + 1
  }

  /**
   * `s.replace(c, to)` with a one-character search string: only the first
   * occurrence of `c` is replaced (the replacement strings used here contain
   * no `$` patterns).
   */
  function ReplaceFirst(s: string, c: char, to: string): (r: string)
    ensures c !in s ==> r == s
    ensures c in s ==> |r| == |s| - 1 + |to|
  {
    var i := IndexOf(s, c);
    if i < 0 then s else s[..i] + to + s[i + 1..]
  }

  /** With a match, the first `c`, and only it, becomes `to`; the text around it is kept. */
  lemma ReplaceFirstValue(s: string, c: char, to: string)
    ensures forall i :: 0 <= i < |s| && s[i] == c && c !in s[..i] ==>
      ReplaceFirst(s, c, to) == s[..i] + to + s[i + 1..]
  {
    var k := IndexOf(s, c);
    forall i | 0 <= i < |s| && s[i] == c && c !in s[..i]
      ensures ReplaceFirst(s, c, to) == s[..i] + to + s[i + 1..]
    {
      assert forall j :: 0 <= j < i ==> s[..i][j] == s[j];
      assert k == i;
    }
  }

  // ---------------------------------------------------------------------------
  // path.extname (POSIX flavour)

  /** The path with its trailing `/` characters removed. */
  function TrimTrailingSlashes(p: string): (r: string)
    ensures r <= p
    ensures r == "" || r[|r| - 1] != '/'
  {
    if p != "" && p[|p| - 1] == '/' then TrimTrailingSlashes(p[..|p| - 1]) else p
  }

  /** The characters after the last `/` (all of `t` when it has none). */
  function AfterLastSlash(t: string): (r: string)
    ensures |r| <= |t|
    ensures '/' !in r
  {
    if t == [] || t[|t| - 1] == '/' then [] else AfterLastSlash(t[..|t| - 1]) + [t[|t| - 1]]
  }

  /** The last component of the path: what follows its last `/` once trailing ones are gone. */
  function BaseName(p: string): (r: string)
    ensures '/' !in r
  {
    AfterLastSlash(TrimTrailingSlashes(p))
  }

  /**
   * `path.extname(p)`: from the last `.` of the last component to its end,
   * or "" when that component has no `.`, has it only as its first character
   * (a name such as ".profile"), or is "..".
   */
  function ExtName(p: string): (r: string)
    ensures r == "" || r[0] == '.'
  {
    var b := BaseName(p);
    var d := LastIndexOf(b, '.');
    if d <= 0 || b == ".." then "" else b[d..]
  }

  /** A non-empty extension is a dot followed by characters that are neither dots nor slashes. */
  lemma ExtNameShape(p: string)
    ensures var e := ExtName(p);
      e == "" || (e[0] == '.' && '.' !in e[1..] && '/' !in e)
  {
    var b := BaseName(p);
    var d := LastIndexOf(b, '.');
    if d > 0 && b != ".." {
      var e := b[d..];
      forall j | 0 <= j < |e|
        ensures e[j] != '/'
        ensures j >= 1 ==> e[j] != '.'
      {
        assert e[j] == b[d + j];
      }
    }
  }

  lemma TrimNoTrailingSlash(p: string)
    requires p == "" || p[|p| - 1] != '/'
    ensures TrimTrailingSlashes(p) == p
  {
  }

  lemma {:induction false} AfterLastSlashNoSlash(t: string)
    requires '/' !in t
    ensures AfterLastSlash(t) == t
  {
    if t != [] {
      var init := t[..|t| - 1];
      assert forall j :: 0 <= j < |init| ==> init[j] == t[j];
      AfterLastSlashNoSlash(init);
      assert t == t[..|t| - 1] + [t[|t| - 1]];
    }
  }

  lemma BaseNameNoSlash(p: string)
    requires '/' !in p
    ensures BaseName(p) == p
  {
    TrimNoTrailingSlash(p);
    AfterLastSlashNoSlash(p);
  }

  /** Only slashes were trimmed: everything after the result is `/`. */
  lemma {:induction false} TrimTrailingSlashesValue(p: string)
    ensures var r := TrimTrailingSlashes(p);
      forall j :: |r| <= j < |p| ==> p[j] == '/'
  {
    if p != "" && p[|p| - 1] == '/' {
      var init := p[..|p| - 1];
      TrimTrailingSlashesValue(init);
      assert forall j :: 0 <= j < |init| ==> init[j] == p[j];
    }
  }

  /** The result is the suffix of `t` that starts at the beginning or just after a `/`. */
  lemma {:induction false} AfterLastSlashValue(t: string)
    ensures var r := AfterLastSlash(t);
      r == t[|t| - |r|..] && (|r| == |t| || t[|t| - |r| - 1] == '/')
  {
    if t != [] && t[|t| - 1] != '/' {
      var init := t[..|t| - 1];
      AfterLastSlashValue(init);
      var r0 := AfterLastSlash(init);
      assert t[|t| - |r0| - 1..] == init[|init| - |r0|..] + [t[|t| - 1]];
      if |r0| < |init| {
        assert t[|t| - |r0| - 2] == init[|init| - |r0| - 1];
      }
    }
  }

  /**
   * The base name is a component of `p`: it starts at the beginning or after
   * a `/`, and only slashes follow it (it ends where the trailing slashes begin).
   */
  lemma BaseNameValue(p: string)
    ensures var r := BaseName(p);
      var k := |TrimTrailingSlashes(p)| - |r|;
      && 0 <= k <= |p| - |r| && r == p[k..k + |r|] && (k == 0 || p[k - 1] == '/')
      && forall j :: k + |r| <= j < |p| ==> p[j] == '/'
  {
    var u := TrimTrailingSlashes(p);
    var r := BaseName(p);
    TrimTrailingSlashesValue(p);
    AfterLastSlashValue(u);
    var k := |u| - |r|;
    assert r == u[k..] == p[k..k + |r|];
    assert k > 0 ==> p[k - 1] == u[k - 1] == '/';
  }

  /**
   * Reference behaviour of `path.extname` on a plain file name: a non-empty
   * stem, a dot, and an extension without dots gives the dot and that
   * extension (except the name "..", which has none).
   */
  lemma ExtNameOfDotted(stem: string, ext: string)
    requires '/' !in stem && '/' !in ext && '.' !in ext
    requires stem != "" && stem + "." + ext != ".."
    ensures ExtName(stem + "." + ext) == "." + ext
  {
    var p := stem + "." + ext;
    forall j | 0 <= j < |p|
      ensures p[j] != '/'
      ensures j > |stem| ==> p[j] != '.'
    {
      if j < |stem| {
        assert p[j] == stem[j];
      } else if j > |stem| {
        assert p[j] == ext[j - |stem| - 1];
      }
    }
    BaseNameNoSlash(p);
    assert p[|stem|] == '.';
    var d := LastIndexOf(p, '.');
    assert d == |stem|;
    assert p[d..] == "." + ext;
  }

  /** A component without any dot has no extension. */
  lemma ExtNameWithoutDot(name: string)
    requires '/' !in name && '.' !in name
    ensures ExtName(name) == ""
  {
    BaseNameNoSlash(name);
  }

  /** A component whose only dot is its first character (".profile") has no extension. */
  lemma ExtNameOfHidden(rest: string)
    requires '/' !in rest && '.' !in rest
    ensures ExtName("." + rest) == ""
  {
    var p := "." + rest;
    forall j | 0 < j < |p|
      ensures p[j] != '/' && p[j] != '.'
    {
      assert p[j] == rest[j - 1];
    }
    BaseNameNoSlash(p);
    assert p[0] == '.';
    var d := LastIndexOf(p, '.');
    assert d == 0;
  }

  // ---------------------------------------------------------------------------
  // Classification and naming

  /** `path.extname(name).replace(".", "")`: the extension without its leading dot. */
  function ExtKey(name: string): (k: string)
    ensures ExtName(name) == "" ==> k == ""
    ensures ExtName(name) != "" ==> ExtName(name) == "." + k && '.' !in k
  {
    var e := ExtName(name);
    assert e != "" ==> IndexOf(e, '.') == 0;
    ReplaceFirst(e, '.', "")
  }

  /**
   * The subdirectory an upload is stored in: the image directory exactly when
   * the extension, dot removed, is one of the image extensions, compared
   * case-sensitively; the generic file directory otherwise.
   */
  function SubDirFor(name: string): (r: string)
    ensures r == ImgDir || r == FileDir
    ensures r == ImgDir <==> ExtName(name) != "" && ExtName(name)[1..] in ImageExtensions
  {
    if Find(ImageExtensions, ExtKey(name)) > -1 then ImgDir else FileDir
  }

  /** For a plain `stem.ext` name, the choice depends on `ext` alone. */
  lemma SubDirForDotted(stem: string, ext: string)
    requires '/' !in stem && '/' !in ext && '.' !in ext && stem != ""
    ensures SubDirFor(stem + "." + ext) == ImgDir <==> ext in ImageExtensions
  {
    if stem + "." + ext == ".." {
      assert ext == "" by { assert |stem + "." + ext| == 2; }
      assert "" !in ImageExtensions;
    } else {
      ExtNameOfDotted(stem, ext);
    }
  }

  /**
   * The comparison is case-sensitive: "<stem>.png" is an image, "<stem>.PNG"
   * is a generic file.
   */
  lemma UpperCaseExtensionIsFile(stem: string)
    requires '/' !in stem && stem != ""
    ensures SubDirFor(stem + ".PNG") == FileDir
    ensures SubDirFor(stem + ".png") == ImgDir
  {
    var upper, lower := "PNG", "png";
    assert '/' !in upper && '.' !in upper && upper !in ImageExtensions;
    assert '/' !in lower && '.' !in lower && lower == ImageExtensions[0];
    assert stem + ".PNG" == stem + "." + upper;
    assert stem + ".png" == stem + "." + lower;
    SubDirForDotted(stem, upper);
    SubDirForDotted(stem, lower);
  }

  /**
   * `name.replace(" ", "_")`: the first space becomes an underscore; every
   * other character, later spaces included, is kept.
   */
  function Sanitize(name: string): (r: string)
    ensures |r| == |name|
    ensures forall j :: 0 <= j < |name| ==>
      r[j] == (if name[j] == ' ' && ' ' !in name[..j] then '_' else name[j])
  {
    var i := IndexOf(name, ' ');
    var r := ReplaceFirst(name, ' ', "_");
    assert forall j :: 0 <= j < |name| ==>
      r[j] == (if name[j] == ' ' && ' ' !in name[..j] then '_' else name[j]) by {
      forall j | 0 <= j < |name|
        ensures r[j] == (if name[j] == ' ' && ' ' !in name[..j] then '_' else name[j])
      {
        if i >= 0 && j > i {
          assert name[..j][i] == ' ';
        } else if i >= 0 && j < i {
          assert name[..i][j] == name[j];
        }
      }
    }
    r
  }

  /** The only name that sanitises to "" is "" itself. */
  lemma SanitizeEmpty(name: string)
    ensures Sanitize(name) == "" <==> name == ""
  {
  }

  /**
   * Only the first space is replaced: "my file.txt" becomes "my_file.txt", and
   * in "a b c" the second space stays.
   */
  lemma SanitizeFirstSpaceOnly(a: string, b: string)
    requires ' ' !in a
    ensures Sanitize(a + " " + b) == a + "_" + b
  {
    var n := a + " " + b;
    var r := Sanitize(n);
    forall j | 0 <= j < |n|
      ensures r[j] == (a + "_" + b)[j]
    {
      if j < |a| {
        assert n[j] == a[j];
      } else if j == |a| {
        assert n[..j] == a;
      } else {
        assert n[..j][|a|] == ' ';
      }
    }
  }

  /** A name without spaces is stored unchanged. */
  lemma SanitizeWithoutSpace(name: string)
    requires ' ' !in name
    ensures Sanitize(name) == name
  {
    forall j | 0 <= j < |name|
      ensures Sanitize(name)[j] == name[j]
    {
      assert name[j] != ' ';
    }
  }

  /** Two different client names can collide: "a b" and "a_b" are stored under the same name. */
  lemma SanitizeCollision(a: string, b: string)
    requires ' ' !in a && ' ' !in b
    ensures a + " " + b != a + "_" + b
    ensures Sanitize(a + " " + b) == Sanitize(a + "_" + b)
  {
    assert (a + " " + b)[|a|] != (a + "_" + b)[|a|];
    SanitizeFirstSpaceOnly(a, b);
    var m := a + "_" + b;
    assert ' ' !in m by {
      forall j | 0 <= j < |m| ensures m[j] != ' ' {
        if j < |a| { assert m[j] == a[j]; }
        else if j > |a| { assert m[j] == b[j - |a| - 1]; }
      }
    }
    SanitizeWithoutSpace(m);
  }

  // ---------------------------------------------------------------------------
  // URLs

  /** The connection prefix: "https://" exactly for a secure request. */
  function Scheme(secure: bool): (r: string)
    ensures |r| == (if secure then 8 else 7)
    ensures r == "http" + (if secure then "s" else "") + "://"
  {
    if secure then "https://" else "http://"
  }

  /** The two links an upload returns: where the file is served and how to delete it. */
  datatype Links = Links(url: string, deleteUrl: string)

  predicate IsHttps(u: string) {
    |u| >= 8 && u[..8] == "https://"
  }

  /**
   * The public URL `<scheme><host>/<subDir>/<newName>` and the delete URL
   * `<scheme><host>/delete?filename=<newName>&key=<key>&subdir=<subDir>`.
   */
  function BuildUrls(secure: bool, host: string, subDir: string, newName: string, key: string): (l: Links)
    ensures IsHttps(l.url) <==> secure
    ensures IsHttps(l.deleteUrl) <==> secure
    ensures var origin := Scheme(secure) + host + "/";
      l.url == origin + subDir + "/" + newName &&
      l.deleteUrl == origin + "delete?filename=" + newName + "&key=" + key + "&subdir=" + subDir
  {
    var origin := Scheme(secure) + host + "/";
    var l := Links(origin + subDir + "/" + newName,
                   origin + "delete?filename=" + newName + "&key=" + key + "&subdir=" + subDir);
    assert !secure ==> l.url[4] == ':' && l.deleteUrl[4] == ':';
    assert secure ==> l.url[..8] == origin[..8] && l.deleteUrl[..8] == origin[..8];
    l
  }
}
