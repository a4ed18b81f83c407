/** Package URLs and the resolution of references between plugin sources
    (pkg/model/dynamic-plugins-reference.go). */
module PluginReferences {
  import opened GoStrings
  import opened DynaPlugins

  const INHERIT := ":{{inherit}}"
  const REF := "ref://"
  const OCI := "oci://"
  const HTTPS := "https://"
  const HTTP := "http://"
  const LOCAL := "./"

  datatype Error = UnsupportedFormat(url: string) | EmptyRef(url: string) | NoName(url: string) | NotFound(name: string)

  datatype Result<+T> = Ok(value: T) | Err(error: Error)

  // ---------------------------------------------------------------------------
  // Names
  // ---------------------------------------------------------------------------

  /** The package without its `!plugin-path`. */
  function Image(url: string): string {
    var i := LastIndex(url, '!');
    if i != -1 then url[..i] else url
  }

  /** The `!plugin-path` of a package, with its `!`, or nothing. */
  function PluginPath(url: string): (p: string)
    ensures Image(url) + p == url
    ensures p != "" ==> p[0] == '!' && '!' !in p[1..]
  {
    var i := LastIndex(url, '!');
    if i != -1 then url[i..] else ""
  }

  predicate IsDirectLink(url: string) {
    HasPrefix(url, OCI) || HasPrefix(url, HTTPS) || HasPrefix(url, HTTP) || HasPrefix(url, LOCAL)
  }

  predicate StartsVersion(name: string, i: int) {
    0 <= i && i + 1 < |name| && name[i] == '-' && '0' <= name[i + 1] <= '9'
  }

  /** Cuts the name at its last `-<digit>`, scanning positions below `n`. */
  function StripVersionBelow(name: string, n: nat): string
    requires n <= |name|
  {
    if n == 0 then name
    else if StartsVersion(name, n - 1) then name[..n - 1]
    else StripVersionBelow(name, n - 1)
  }

  /** A version starts at a dash that one of the ten digits follows. */
  lemma StartsVersionIff(name: string, i: int)
    ensures StartsVersion(name, i) <==> 0 <= i < |name| - 1 && name[i] == '-' && name[i + 1] in "0123456789"
  {
    if 0 <= i < |name| - 1 {
      var digits := "0123456789";
      var c := name[i + 1];
      assert '0' <= c <= '9' ==> digits[c as int - '0' as int] == c;
    }
  }

  /** Without such a dash the name stays as it is. */
  lemma {:induction false} NoVersionStays(name: string, n: nat)
    requires n <= |name| && forall i :: 0 <= i < |name| - 1 && name[i] == '-' ==> name[i + 1] !in "0123456789"
    ensures StripVersionBelow(name, n) == name
  {
    if n > 0 {
      StartsVersionIff(name, n - 1);
      NoVersionStays(name, n - 1);
    }
  }

  method StripVersionSuffix(name: string) returns (r: string)
    ensures r == StripVersionBelow(name, |name|)
    ensures r == name ==> forall i :: !StartsVersion(name, i)
    ensures r != name ==> r < name && StartsVersion(name, |r|) && forall i :: i > |r| ==> !StartsVersion(name, i)
  {
    var i := |name| - 1;
    while i >= 0
      invariant -1 <= i < |name|
      invariant StripVersionBelow(name, i + 1) == StripVersionBelow(name, |name|)
      invariant forall j :: j > i ==> !StartsVersion(name, j)
    {
      if StartsVersion(name, i) {
        return name[..i];
      }
      i := i - 1;
    }
    return name;
  }

  function WithoutDigest(url: string): string {
    var at := LastIndex(url, '@');
    if at != -1 then url[..at] else url
  }

  function WithoutTag(imageName: string): string {
    var colon := LastIndex(imageName, ':');
    if colon != -1 then imageName[..colon] else imageName
  }

  /** A registry without a path component has no name. */
  function OciName(image: string): string {
    var url := WithoutDigest(TrimPrefix(image, OCI));
    var slash := LastIndex(url, '/');
    if slash == -1 then ""
    else
      var imageName := url[slash + 1..];
      if imageName == "" then "" else WithoutTag(imageName)
  }

  function HttpName(image: string): string {
    var url := TrimPrefix(TrimPrefix(image, HTTPS), HTTP);
    var slash := LastIndex(url, '/');
    var file := if slash != -1 then url[slash + 1..] else url;
    var query := Index(file, '?');
    var file' := if query != -1 then file[..query] else file;
    var stem := TrimSuffix(TrimSuffix(file', ".tgz"), ".tar.gz");
    StripVersionBelow(stem, |stem|)
  }

  function LocalName(image: string): string {
    var slash := LastIndex(image, '/');
    if slash != -1 then image[slash + 1..] else image
  }

  /** The name of an image part, that is, of a package without `!plugin-path`. */
  function ImageName(image: string): string {
    if HasPrefix(image, OCI) then OciName(image)
    else if HasPrefix(image, HTTPS) || HasPrefix(image, HTTP) then HttpName(image)
    else if HasPrefix(image, LOCAL) then LocalName(image)
    else ""
  }

  function Name(url: string): string {
    ImageName(Image(url))
  }

  /** Only direct links have a name. */
  lemma NamedIsDirect(url: string)
    requires Name(url) != ""
    ensures IsDirectLink(url) && IsDirectLink(Image(url))
  {
  }

  // ---------------------------------------------------------------------------
  // Printing a package URL and reading its name back
  // ---------------------------------------------------------------------------

  function Part(sep: char, text: Option<string>): string {
    if text.None? then "" else [sep] + text.value
  }

  /** `oci://registry/name[:tag][@digest][!path]` */
  function OciUrl(registry: string, name: string, tag: Option<string>, digest: Option<string>,
                  path: Option<string>): string
  {
    OCI + registry + "/" + name + Part(':', tag) + Part('@', digest) + Part('!', path)
  }

  predicate Free(text: Option<string>, chars: set<char>) {
    text.Some? ==> forall c :: c in chars ==> c !in text.value
  }

  /** Cutting a separator part off gives back what was before it. */
  lemma CutPart(a: string, sep: char, part: Option<string>)
    requires sep !in a && Free(part, {sep})
    ensures var s, i := a + Part(sep, part), LastIndex(a + Part(sep, part), sep);
            if part.None? then i == -1 && s == a else i == |a| && s[..i] == a
  {
    if part.Some? {
      assert a + Part(sep, part) == a + [sep] + part.value;
      LastIndexOf(a, sep, part.value);
    } else {
      assert a + Part(sep, part) == a;
      LastIndexNone(a, sep);
    }
  }

  lemma ImageOf(image: string, path: Option<string>)
    requires '!' !in image && Free(path, {'!'})
    ensures Image(image + Part('!', path)) == image
  {
    CutPart(image, '!', path);
  }

  lemma WithoutDigestOf(url: string, digest: Option<string>)
    requires '@' !in url && Free(digest, {'@'})
    ensures WithoutDigest(url + Part('@', digest)) == url
  {
    CutPart(url, '@', digest);
  }

  lemma WithoutTagOf(name: string, tag: Option<string>)
    requires ':' !in name && Free(tag, {':'})
    ensures WithoutTag(name + Part(':', tag)) == name
  {
    CutPart(name, ':', tag);
  }

  /** The name part of `registry/name[:tag][@digest]`. */
  lemma OciNameOf(registry: string, name: string, tag: Option<string>, digest: Option<string>)
    requires name != "" && Free(Some(name), {'/', ':', '@'}) && Free(Some(registry), {'@'})
    requires Free(tag, {'/', ':', '@'}) && Free(digest, {'@'})
    ensures OciName(OCI + (registry + ['/'] + (name + Part(':', tag)) + Part('@', digest))) == name
  {
    var last := name + Part(':', tag);
    var rest := registry + ['/'] + last;
    assert '/' !in last && '@' !in last;
    OciNameOfLast(registry, last, digest);
    WithoutTagOf(name, tag);
  }

  lemma OciNameOfLast(registry: string, last: string, digest: Option<string>)
    requires last != "" && '/' !in last && '@' !in last && '@' !in registry && Free(digest, {'@'})
    ensures OciName(OCI + (registry + ['/'] + last + Part('@', digest))) == WithoutTag(last)
  {
    var rest := registry + ['/'] + last;
    var url := rest + Part('@', digest);
    assert TrimPrefix(OCI + url, OCI) == url;
    WithoutDigestOf(rest, digest);
    LastIndexOf(registry, '/', last);
    assert rest[|registry| + 1..] == last;
  }

  /** Name extraction undoes printing. The registry may contain `/` and, for a
      port, `:`; the digest may contain `:` and `/`. */
  lemma {:induction false} OciNameRoundTrip(registry: string, name: string, tag: Option<string>, digest: Option<string>,
                                            path: Option<string>)
    requires name != "" && Free(Some(name), {'/', ':', '@', '!'})
    requires Free(Some(registry), {'@', '!'})
    requires Free(tag, {'/', ':', '@', '!'}) && Free(digest, {'@', '!'}) && Free(path, {'!'})
    ensures Name(OciUrl(registry, name, tag, digest, path)) == name
  {
    var image := OCI + (registry + ['/'] + (name + Part(':', tag)) + Part('@', digest));
    OciUrlParts(registry, name, tag, digest, path);
    NoPathIn(registry, name, tag, digest);
    ImageOf(image, path);
    OciNameOf(registry, name, tag, digest);
    assert HasPrefix(image, OCI);
  }

  lemma {:induction false} OciUrlParts(registry: string, name: string, tag: Option<string>, digest: Option<string>,
                                       path: Option<string>)
    ensures OciUrl(registry, name, tag, digest, path) ==
            OCI + (registry + ['/'] + (name + Part(':', tag)) + Part('@', digest)) + Part('!', path)
  {
    Regroup(OCI, registry, name, Part(':', tag), Part('@', digest));
  }

  lemma Regroup(a: string, b: string, c: string, d: string, e: string)
    ensures a + b + "/" + c + d + e == a + (b + ['/'] + (c + d) + e)
  {
  }

  lemma NoPathIn(registry: string, name: string, tag: Option<string>, digest: Option<string>)
    requires '!' !in registry && '!' !in name && Free(tag, {'!'}) && Free(digest, {'!'})
    ensures '!' !in OCI + (registry + ['/'] + (name + Part(':', tag)) + Part('@', digest))
  {
    assert '!' !in Part(':', tag) && '!' !in Part('@', digest) && '!' !in OCI;
  }

  /** `http[s]://host/name-version[ext][?query][!path]` */
  function HttpUrl(secure: bool, host: string, stem: string, ext: string, query: Option<string>,
                   path: Option<string>): string
  {
    (if secure then HTTPS else HTTP) + (host + ['/'] + (stem + ext + Part('?', query))) + Part('!', path)
  }

  lemma TrimArchive(stem: string, ext: string)
    requires !HasSuffix(stem, ".tgz") && !HasSuffix(stem, ".tar.gz") && ext in {"", ".tgz", ".tar.gz"}
    ensures TrimSuffix(TrimSuffix(stem + ext, ".tgz"), ".tar.gz") == stem
  {
    if ext == "" {
      assert stem + ext == stem;
    } else if ext == ".tgz" {
      assert (stem + ext)[|stem|..] == ".tgz";
      assert TrimSuffix(stem + ext, ".tgz") == stem;
    } else {
      var s := stem + ".tar.gz";
      assert s[|s| - 4..][0] == 'r';
      assert s[|stem|..] == ".tar.gz";
    }
  }

  lemma CutQuery(file: string, query: Option<string>)
    requires '?' !in file
    ensures var s, i := file + Part('?', query), Index(file + Part('?', query), '?');
            if query.None? then i == -1 && s == file else i == |file| && s[..i] == file
  {
    var s := file + Part('?', query);
    var i := Index(s, '?');
    if query.Some? {
      assert s[|file|] == '?';
      assert !(i > |file|);
    }
  }

  lemma TrimScheme(secure: bool, host: string, file: string)
    requires secure ==> !HasPrefix(host, "http:")
    ensures var url := host + ['/'] + file;
            TrimPrefix(TrimPrefix((if secure then HTTPS else HTTP) + url, HTTPS), HTTP) == url
  {
    var url := host + ['/'] + file;
    if secure {
      assert TrimPrefix(HTTPS + url, HTTPS) == url;
      if |host| < 5 {
        assert url[|host|] == '/' != HTTP[|host|];
      } else {
        assert url[..5] == host[..5] != "http:" == HTTP[..5];
      }
    } else {
      var s := HTTP + url;
      assert s[4] == ':' && HTTPS[4] == 's';
      assert TrimPrefix(s, HTTPS) == s;
      assert TrimPrefix(s, HTTP) == url;
    }
  }

  /** The name of a versioned archive URL. The code takes the last `-<digit>` for
      the start of the version, so it gets the name back if and only if the
      version has no such place inside; otherwise part of the version stays. */
  lemma {:induction false} HttpNameRoundTrip(secure: bool, host: string, name: string, version: string, ext: string,
                                             query: Option<string>, path: Option<string>)
    requires Free(Some(name), {'/', '?', '!'}) && Free(Some(version), {'/', '?', '!'})
    requires version != "" && '0' <= version[0] <= '9'
    requires ext in {"", ".tgz", ".tar.gz"}
    requires !HasSuffix(name + ['-'] + version, ".tgz") && !HasSuffix(name + ['-'] + version, ".tar.gz")
    requires (secure ==> !HasPrefix(host, "http:")) && '!' !in host
    requires Free(query, {'/', '!'}) && Free(path, {'!'})
    ensures var r := Name(HttpUrl(secure, host, name + ['-'] + version, ext, query, path));
            && (r == name <==> forall i :: !StartsVersion(version, i))
            && (r != name ==> r == name + ['-'] + StripVersionBelow(version, |version|))
  {
    FreeStem(name, version, {'/', '?', '!'});
    HttpUrlName(secure, host, name + ['-'] + version, ext, query, path);
    StripWholeVersion(name, version);
  }

  /** A version with a revision: the code takes the revision alone for the version. */
  lemma RevisionLeavesVersion(host: string, name: string, version: string, revision: string)
    requires Free(Some(name), {'/', '?', '!'}) && Free(Some(version), {'/', '?', '!'})
    requires Free(Some(revision), {'/', '?', '!'}) && '!' !in host
    requires version != "" && '0' <= version[0] <= '9'
    requires revision != "" && '0' <= revision[0] <= '9' && forall i :: !StartsVersion(revision, i)
    requires var stem := name + ['-'] + (version + ['-'] + revision);
             !HasSuffix(stem, ".tgz") && !HasSuffix(stem, ".tar.gz")
    ensures Name(HttpUrl(false, host, name + ['-'] + (version + ['-'] + revision), ".tgz", None, None)) ==
            name + ['-'] + version
  {
    var whole := version + ['-'] + revision;
    FreeStem(version, revision, {'/', '?', '!'});
    StripWholeVersion(version, revision);
    assert StartsVersion(whole, |version|);
    HttpNameRoundTrip(false, host, name, whole, ".tgz", None, None);
  }

  /** `p-1.0.0-1.tgz` is taken for version 1 of the plugin `p-1.0.0`. */
  lemma RevisionExample()
    ensures var stem := "p" + ['-'] + ("1.0.0" + ['-'] + "1");
            Name(HttpUrl(false, "h", stem, ".tgz", None, None)) == "p" + ['-'] + "1.0.0"
  {
    var stem := "p" + ['-'] + ("1.0.0" + ['-'] + "1");
    assert |stem| == 9 && stem[8] == '1';
    EndsOtherwise(stem);
    RevisionLeavesVersion("h", "p", "1.0.0", "1");
  }

  lemma EndsOtherwise(stem: string)
    requires stem != "" && stem[|stem| - 1] == '1'
    ensures !HasSuffix(stem, ".tgz") && !HasSuffix(stem, ".tar.gz")
  {
    assert |stem| >= 4 ==> stem[|stem| - 4..][3] == '1';
    assert |stem| >= 7 ==> stem[|stem| - 7..][6] == '1';
  }

  lemma FreeStem(name: string, version: string, chars: set<char>)
    requires Free(Some(name), chars) && Free(Some(version), chars) && '-' !in chars
    ensures Free(Some(name + ['-'] + version), chars)
  {
  }

  lemma StripWholeVersion(name: string, version: string)
    requires version != "" && '0' <= version[0] <= '9'
    ensures var stem := name + ['-'] + version;
            var r := StripVersionBelow(stem, |stem|);
            && (r == name <==> forall i :: !StartsVersion(version, i))
            && (r != name ==> r == name + ['-'] + StripVersionBelow(version, |version|))
  {
    StripVersionOf(name, version, |version|);
    assert |name + ['-'] + StripVersionBelow(version, |version|)| > |name|;
    assert |name + ['-'] + version| == |name| + 1 + |version|;
  }

  lemma {:induction false} HttpUrlName(secure: bool, host: string, stem: string, ext: string,
                                       query: Option<string>, path: Option<string>)
    requires Free(Some(stem), {'/', '?', '!'}) && Free(query, {'/', '!'}) && Free(path, {'!'})
    requires ext in {"", ".tgz", ".tar.gz"} && !HasSuffix(stem, ".tgz") && !HasSuffix(stem, ".tar.gz")
    requires (secure ==> !HasPrefix(host, "http:")) && '!' !in host
    ensures Name(HttpUrl(secure, host, stem, ext, query, path)) == StripVersionBelow(stem, |stem|)
  {
    var file := stem + ext + Part('?', query);
    var image := (if secure then HTTPS else HTTP) + (host + ['/'] + file);
    ArchiveExtension(ext);
    FileHasNoPath(stem, ext, query);
    ImageHasNoPath(secure, host, file);
    ImageOf(image, path);
    HttpImageName(image, secure, host, stem, ext, query);
  }

  lemma FileHasNoPath(stem: string, ext: string, query: Option<string>)
    requires '!' !in stem && '!' !in ext && Free(query, {'!'})
    ensures '!' !in stem + ext + Part('?', query)
  {
    assert '!' !in Part('?', query);
  }

  lemma ImageHasNoPath(secure: bool, host: string, file: string)
    requires '!' !in host && '!' !in file
    ensures '!' !in (if secure then HTTPS else HTTP) + (host + ['/'] + file)
  {
  }

  /** Scanning `name-version` down from inside the version. */
  lemma {:induction false} StripVersionOf(name: string, version: string, n: nat)
    requires version != "" && '0' <= version[0] <= '9' && n <= |version|
    ensures StripVersionBelow(name + ['-'] + version, |name| + 1 + n) ==
            if exists i :: 0 <= i < n && StartsVersion(version, i)
            then name + ['-'] + StripVersionBelow(version, n) else name
  {
    var stem := name + ['-'] + version;
    if n == 0 {
      assert StartsVersion(stem, |name|);
      assert stem[..|name|] == name;
    } else {
      StripVersionOf(name, version, n - 1);
      assert StartsVersion(stem, |name| + n) <==> StartsVersion(version, n - 1);
      assert stem[..|name| + n] == name + ['-'] + version[..n - 1];
    }
  }

  lemma ArchiveExtension(ext: string)
    requires ext in {"", ".tgz", ".tar.gz"}
    ensures Free(Some(ext), {'/', '?', '!'})
  {
  }

  lemma HttpScheme(secure: bool, url: string)
    ensures var image := (if secure then HTTPS else HTTP) + url; ImageName(image) == HttpName(image)
  {
    var scheme := if secure then HTTPS else HTTP;
    assert (scheme + url)[0] == 'h' != OCI[0];
    assert HasPrefix(scheme + url, scheme);
  }

  lemma {:induction false} HttpImageName(image: string, secure: bool, host: string, stem: string, ext: string,
                                         query: Option<string>)
    requires image == (if secure then HTTPS else HTTP) + (host + ['/'] + (stem + ext + Part('?', query)))
    requires Free(Some(stem), {'/', '?'}) && Free(query, {'/'}) && ext in {"", ".tgz", ".tar.gz"}
    requires !HasSuffix(stem, ".tgz") && !HasSuffix(stem, ".tar.gz")
    requires secure ==> !HasPrefix(host, "http:")
    ensures ImageName(image) == StripVersionBelow(stem, |stem|)
  {
    var file := stem + ext + Part('?', query);
    HttpScheme(secure, host + ['/'] + file);
    TrimScheme(secure, host, file);
    ArchiveExtension(ext);
    TrimArchive(stem, ext);
    HttpNameOf(image, host, file, stem + ext, query);
  }

  lemma HttpNameOf(image: string, host: string, file: string, archive: string, query: Option<string>)
    requires TrimPrefix(TrimPrefix(image, HTTPS), HTTP) == host + ['/'] + file
    requires '/' !in file && file == archive + Part('?', query) && '?' !in archive
    ensures var stem := TrimSuffix(TrimSuffix(archive, ".tgz"), ".tar.gz");
            HttpName(image) == StripVersionBelow(stem, |stem|)
  {
    LastIndexOf(host, '/', file);
    assert (host + ['/'] + file)[|host| + 1..] == file;
    CutQuery(archive, query);
  }

  lemma {:induction false} SlashlessOci(x: string)
    requires '/' !in x
    ensures OciName(OCI + x) == ""
  {
    assert TrimPrefix(OCI + x, OCI) == x;
    var url := WithoutDigest(x);
    assert forall c :: c in url ==> c in x;
    LastIndexNone(url, '/');
  }

  /** A registry alone, without a path behind it, has no name. */
  lemma {:induction false} RegistryHasNoName(registry: string, path: Option<string>)
    requires Free(Some(registry), {'/', '!'}) && Free(path, {'!'})
    ensures Name(OCI + registry + Part('!', path)) == ""
  {
    SlashlessOci(registry);
    ImageOf(OCI + registry, path);
    assert HasPrefix(OCI + registry, OCI);
  }

  /** Neither has a path that ends with a slash. */
  lemma {:induction false} OpenPathHasNoName(registry: string, path: Option<string>)
    requires Free(Some(registry), {'@', '!'}) && Free(path, {'!'})
    ensures Name(OCI + registry + ['/'] + Part('!', path)) == ""
  {
    var rest := registry + ['/'];
    assert OCI + registry + ['/'] == OCI + rest && TrimPrefix(OCI + rest, OCI) == rest;
    LastIndexNone(rest, '@');
    LastIndexOf(registry, '/', "");
    assert rest == registry + ['/'] + "" && rest[|registry| + 1..] == "";
    ImageOf(OCI + rest, path);
    assert HasPrefix(OCI + rest, OCI);
  }

  /** An archive directly behind the scheme. */
  lemma {:induction false} HostlessArchive(secure: bool, stem: string, ext: string, query: Option<string>)
    requires Free(Some(stem), {'/', '?'}) && Free(query, {'/'}) && ext in {"", ".tgz", ".tar.gz"}
    requires !HasSuffix(stem, ".tgz") && !HasSuffix(stem, ".tar.gz")
    ensures ImageName((if secure then HTTPS else HTTP) + (stem + ext + Part('?', query))) ==
            StripVersionBelow(stem, |stem|)
  {
    var file := stem + ext + Part('?', query);
    ArchiveExtension(ext);
    HttpScheme(secure, file);
    TrimArchive(stem, ext);
    NoSlashIn(stem, ext, query);
    SlashlessName(secure, file, stem + ext, query);
  }

  lemma NoSlashIn(stem: string, ext: string, query: Option<string>)
    requires '/' !in stem && '/' !in ext && Free(query, {'/'})
    ensures '/' !in stem + ext + Part('?', query)
  {
    assert '/' !in Part('?', query);
  }

  lemma {:induction false} SlashlessName(secure: bool, file: string, archive: string, query: Option<string>)
    requires '/' !in file && file == archive + Part('?', query) && '?' !in archive
    ensures var stem := TrimSuffix(TrimSuffix(archive, ".tgz"), ".tar.gz");
            HttpName((if secure then HTTPS else HTTP) + file) == StripVersionBelow(stem, |stem|)
  {
    SlashlessHttp(secure, file);
    CutQuery(archive, query);
  }

  lemma {:induction false} SlashlessHttp(secure: bool, file: string)
    requires '/' !in file
    ensures var url := TrimPrefix(TrimPrefix((if secure then HTTPS else HTTP) + file, HTTPS), HTTP);
            url == file && LastIndex(url, '/') == -1
  {
    LastIndexNone(file, '/');
    assert !HasPrefix(file, HTTP) by {
      assert HTTP[5] == '/';
    }
    if secure {
      assert TrimPrefix(HTTPS + file, HTTPS) == file;
    } else {
      assert (HTTP + file)[4] == ':' && HTTPS[4] == 's';
      assert TrimPrefix(HTTP + file, HTTPS) == HTTP + file && TrimPrefix(HTTP + file, HTTP) == file;
    }
  }

  lemma LocalScheme(image: string)
    requires HasPrefix(image, LOCAL)
    ensures ImageName(image) == LocalName(image)
  {
    assert image[0] == '.' && OCI[0] == 'o' && HTTP[0] == 'h' && HTTPS[0] == 'h';
  }

  lemma LocalNameOf(before: string, name: string, path: Option<string>)
    requires HasPrefix(before + ['/'] + name, LOCAL) && '/' !in name && '!' !in before && '!' !in name
    requires Free(path, {'!'})
    ensures Name(before + ['/'] + name + Part('!', path)) == name
  {
    var image := before + ['/'] + name;
    LocalScheme(image);
    LastIndexOf(before, '/', name);
    assert image[|before| + 1..] == name;
    ImageOf(image, path);
  }

  /** The name of a local package is the last element of its path: `./dir/name[!path]`,
      where the directory may contain `/` ... */
  lemma {:induction false} LocalNameRoundTrip(dir: string, name: string, path: Option<string>)
    requires Free(Some(name), {'/', '!'}) && Free(Some(dir), {'!'}) && Free(path, {'!'})
    ensures Name(LOCAL + dir + ['/'] + name + Part('!', path)) == name
  {
    LocalNameOf(LOCAL + dir, name, path);
  }

  /** ... and `./name[!path]`. */
  lemma {:induction false} BareLocalNameRoundTrip(name: string, path: Option<string>)
    requires Free(Some(name), {'/', '!'}) && Free(path, {'!'})
    ensures Name(LOCAL + name + Part('!', path)) == name
  {
    assert LOCAL + name == ['.'] + ['/'] + name;
    LocalNameOf(['.'], name, path);
  }

  // ---------------------------------------------------------------------------
  // Resolution
  // ---------------------------------------------------------------------------

  /** The first base package with the given name. */
  function Lookup(base: seq<string>, name: string): Option<string> {
    if base == [] then None
    else if base[0] != "" && Name(base[0]) == name then Some(base[0])
    else Lookup(base[1..], name)
  }

  function ResolveRef(url: string, base: seq<string>): Result<string> {
    var name := TrimPrefix(url, REF);
    if name == "" then Err(EmptyRef(url))
    else
      match Lookup(base, name)
      case Some(found) => Ok(found)
      case None => Err(NotFound(name))
  }

  /** The name that an `{{inherit}}` reference looks up. */
  function InheritName(url: string): string {
    Name(RemoveFirst(Image(url), INHERIT))
  }

  function ResolveInherit(url: string, base: seq<string>): Result<string> {
    var name := InheritName(url);
    if name == "" then Err(NoName(Image(url)))
    else
      match Lookup(base, name)
      case Some(found) => Ok(if PluginPath(url) != "" then Image(found) + PluginPath(url) else found)
      case None => Err(NotFound(name))
  }

  predicate IsRef(url: string) { HasPrefix(url, REF) }

  predicate IsInherit(url: string) { !IsRef(url) && Contains(url, INHERIT) }

  function ResolvePackage(url: string, base: seq<string>): Result<string> {
    if url == "" then Ok(url)
    else if IsRef(url) then ResolveRef(url, base)
    else if IsInherit(url) then ResolveInherit(url, base)
    else if IsDirectLink(url) then Ok(url)
    else Err(UnsupportedFormat(url))
  }

  ghost predicate IsResolved(p: Plugin, base: seq<string>, r: Plugin) {
    ResolvePackage(p.package, base) == Ok(r.package) && r == p.(package := r.package)
  }

  /** `resolved` is `plugins` with every package resolved and nothing else changed. */
  ghost predicate Resolved(plugins: seq<Plugin>, base: seq<Plugin>, resolved: seq<Plugin>) {
    && |resolved| == |plugins|
    && forall i :: 0 <= i < |plugins| ==> IsResolved(plugins[i], Packages(base), resolved[i])
  }

  /** The loop of `resolveReferences`: all entries resolved in place, or the first failure. */
  method ResolveReferences(plugins: seq<Plugin>, base: seq<Plugin>) returns (r: Result<seq<Plugin>>)
    ensures r.Ok? ==> Resolved(plugins, base, r.value)
    ensures r.Err? ==> exists i :: 0 <= i < |plugins|
                                   && ResolvePackage(plugins[i].package, Packages(base)) == Err(r.error)
                                   && forall j :: 0 <= j < i ==> ResolvePackage(plugins[j].package, Packages(base)).Ok?
  {
    var resolved, packages := plugins, Packages(base);
    for i := 0 to |resolved|
      invariant |resolved| == |plugins|
      invariant forall j :: i <= j < |plugins| ==> resolved[j] == plugins[j]
      invariant forall j :: 0 <= j < i ==> IsResolved(plugins[j], packages, resolved[j])
    {
      var url := ResolvePackage(resolved[i].package, packages);
      if url.Err? {
        return Err(url.error);
      }
      resolved := resolved[i := resolved[i].(package := url.value)];
    }
    return Ok(resolved);
  }

  // ---------------------------------------------------------------------------
  // What resolution guarantees
  // ---------------------------------------------------------------------------

  lemma {:induction false} LookupFinds(base: seq<string>, name: string)
    requires name != ""
    ensures match Lookup(base, name)
            case Some(found) => found in base && found != "" && Name(found) == name
            case None => forall b :: b in base ==> b == "" || Name(b) != name
  {
    if base != [] && !(base[0] != "" && Name(base[0]) == name) {
      LookupFinds(base[1..], name);
      assert forall b :: b in base ==> b == base[0] || b in base[1..];
    }
  }

  /** The non-empty packages with the given name. */
  ghost function Named(name: string): string -> bool {
    b => b != "" && Name(b) == name
  }

  /** Base package `i` is the first one with the given name. */
  ghost predicate IsFirstNamed(base: seq<string>, i: int, name: string) {
    IsFirstWhere(base, i, Named(name))
  }

  lemma {:induction false} LookupIndex(base: seq<string>, name: string) returns (i: nat)
    requires Lookup(base, name).Some?
    ensures IsFirstNamed(base, i, name) && Lookup(base, name) == Some(base[i])
  {
    if Named(name)(base[0]) {
      i := 0;
    } else {
      var rest := base[1..];
      var n := LookupIndex(rest, name);
      FirstBehind(base[0], rest, n, Named(name));
      assert base == [base[0]] + rest;
      i := n + 1;
    }
  }

  /** `ref://name` resolves to the first non-empty base package of that name, and
      fails exactly when there is none or the name is empty. */
  lemma {:induction false} RefTakesFirst(name: string, base: seq<string>)
    ensures var r := ResolvePackage(REF + name, base);
            && (r.Ok? <==> name != "" && exists b :: b in base && b != "" && Name(b) == name)
            && (r.Ok? ==> exists i :: IsFirstNamed(base, i, name) && r == Ok(base[i]))
            && (r.Err? ==> r.error == if name == "" then EmptyRef("ref://") else NotFound(name))
  {
    assert REF + name != "" && IsRef(REF + name) && TrimPrefix(REF + name, REF) == name;
    assert name == "" ==> REF + name == "ref://";
    if name != "" {
      LookupFinds(base, name);
      if Lookup(base, name).Some? {
        var i := LookupIndex(base, name);
      }
    }
  }

  /** An `{{inherit}}` does the same with the name of its own image, and puts its
      own `!path`, if it has one, in the place of the base's. */
  lemma {:induction false} InheritTakesFirst(url: string, base: seq<string>)
    requires IsInherit(url)
    ensures var r, name := ResolvePackage(url, base), InheritName(url);
            && (r.Ok? <==> name != "" && exists b :: b in base && b != "" && Name(b) == name)
            && (r.Ok? ==> exists i :: IsFirstNamed(base, i, name)
                                      && r == Ok(if PluginPath(url) == "" then base[i]
                                                 else Image(base[i]) + PluginPath(url)))
            && (r.Err? ==> r.error == if name == "" then NoName(Image(url)) else NotFound(name))
  {
    NotEmpty(url);
    var name := InheritName(url);
    if name != "" {
      LookupFinds(base, name);
      if Lookup(base, name).Some? {
        var i := LookupIndex(base, name);
      }
    }
  }

  lemma NotEmpty(url: string)
    requires IsInherit(url)
    ensures url != ""
  {
    var i: nat :| i <= |url| && OccursAt(url, INHERIT, i);
  }

  /** Whatever is no reference is left alone when it is empty or a direct link, and is an error otherwise. */
  lemma OthersAreKept(url: string, base: seq<string>)
    requires !IsRef(url) && !IsInherit(url)
    ensures ResolvePackage(url, base) ==
            if url == "" || "oci://" <= url || "https://" <= url || "http://" <= url || "./" <= url then Ok(url)
            else Err(UnsupportedFormat(url))
  {
  }

  /** A path taken from the user replaces the base's path and keeps the base's name. */
  lemma NewPathKeepsName(found: string, url: string)
    requires PluginPath(url) != ""
    ensures var r := Image(found) + PluginPath(url);
            Image(r) == Image(found) && PluginPath(r) == PluginPath(url) && Name(r) == Name(found)
  {
    var p := PluginPath(url);
    var r := Image(found) + p;
    assert r == Image(found) + ['!'] + p[1..];
    LastIndexOf(Image(found), '!', p[1..]);
  }

  lemma MarkerAtJoin(found: string, path: string)
    requires path != "" && path[0] == '!'
    ensures Contains(Image(found) + path, INHERIT) <==> Contains(Image(found), INHERIT) || Contains(path, INHERIT)
  {
    NoStraddle(Image(found), path, INHERIT);
  }

  /** The marker shows up in a resolved reference exactly when it was in the part
      taken from the base or in the user's `!path`: it cannot arise at the join. */
  lemma MarkerSurvivesIff(url: string, base: seq<string>)
    requires url != "" && (IsRef(url) || IsInherit(url)) && ResolvePackage(url, base).Ok?
    ensures var found := Lookup(base, if IsRef(url) then TrimPrefix(url, REF) else InheritName(url));
            && found.Some?
            && (Contains(ResolvePackage(url, base).value, INHERIT) <==>
                if IsRef(url) || PluginPath(url) == "" then Contains(found.value, INHERIT)
                else Contains(Image(found.value), INHERIT) || Contains(PluginPath(url), INHERIT))
  {
    if !IsRef(url) && PluginPath(url) != "" {
      MarkerAtJoin(Lookup(base, InheritName(url)).value, PluginPath(url));
    }
  }

  lemma MarkerInImage(url: string)
    ensures Contains(Image(url), INHERIT) ==> Contains(url, INHERIT)
  {
    var image := Image(url);
    if i: nat :| i <= |image| && OccursAt(image, INHERIT, i) {
      OccursInside(image, PluginPath(url), INHERIT, i);
      assert OccursAt(url, INHERIT, i);
    }
  }

  lemma ReferencesAreNotDirect(url: string)
    ensures !(IsRef(url) && IsDirectLink(url))
  {
    if IsRef(url) {
      assert url[0] == REF[0];
    }
  }

  /** When neither the base nor the user's `!path` carries the marker, a resolved
      package is empty or a direct link without the marker, and resolving it
      again, against any base, changes nothing. */
  lemma ResolutionIsFinal(url: string, base: seq<string>)
    requires forall b :: b in base ==> !Contains(b, INHERIT)
    requires !Contains(PluginPath(url), INHERIT)
    requires ResolvePackage(url, base).Ok?
    ensures var r := ResolvePackage(url, base).value;
            && (url == "" <==> r == "")
            && (r != "" ==> IsDirectLink(r) && !Contains(r, INHERIT))
            && forall other :: ResolvePackage(r, other) == Ok(r)
  {
    if url != "" {
      if IsRef(url) || IsInherit(url) {
        ReferenceBecomesDirect(url, base);
      }
      DirectIsFinal(ResolvePackage(url, base).value);
    }
  }

  lemma DirectIsFinal(r: string)
    requires IsDirectLink(r) && !Contains(r, INHERIT)
    ensures r != "" && forall other :: ResolvePackage(r, other) == Ok(r)
  {
    ReferencesAreNotDirect(r);
  }

  lemma ReferenceBecomesDirect(url: string, base: seq<string>)
    requires forall b :: b in base ==> !Contains(b, INHERIT)
    requires !Contains(PluginPath(url), INHERIT)
    requires url != "" && (IsRef(url) || IsInherit(url)) && ResolvePackage(url, base).Ok?
    ensures var r := ResolvePackage(url, base).value; IsDirectLink(r) && !Contains(r, INHERIT)
  {
    var name := if IsRef(url) then TrimPrefix(url, REF) else InheritName(url);
    LookupFinds(base, name);
    var found := Lookup(base, name).value;
    MarkerSurvivesIff(url, base);
    MarkerInImage(found);
    NamedIsDirect(found);
    DirectWithPath(found, PluginPath(url));
  }

  lemma DirectWithPath(found: string, path: string)
    requires IsDirectLink(Image(found))
    ensures IsDirectLink(Image(found) + path) && IsDirectLink(found)
  {
    assert Image(found) <= Image(found) + path;
    assert found == Image(found) + PluginPath(found);
  }

  /** The same for a whole list: resolved entries are final against every other base. */
  lemma ResolvedListIsFinal(plugins: seq<Plugin>, base: seq<Plugin>, resolved: seq<Plugin>, other: seq<Plugin>)
    requires Resolved(plugins, base, resolved)
    requires forall b :: b in Packages(base) ==> !Contains(b, INHERIT)
    requires forall p :: p in plugins ==> !Contains(PluginPath(p.package), INHERIT)
    ensures |resolved| == |plugins| && Resolved(resolved, other, resolved)
    ensures forall r :: r in resolved && r.package != "" ==> IsDirectLink(r.package) && !Contains(r.package, INHERIT)
  {
    forall i | 0 <= i < |plugins|
      ensures IsResolved(resolved[i], Packages(other), resolved[i])
      ensures resolved[i].package != "" ==> IsDirectLink(resolved[i].package) && !Contains(resolved[i].package, INHERIT)
    {
      assert IsResolved(plugins[i], Packages(base), resolved[i]) && plugins[i] in plugins;
      ResolutionIsFinal(plugins[i].package, Packages(base));
    }
  }

  /** A `ref://`, or an `{{inherit}}` without `!path`, resolves to a package of the base. */
  lemma PlainReferencesStayInBase(url: string, base: seq<string>)
    requires IsRef(url) || (IsInherit(url) && PluginPath(url) == "")
    requires url != "" && ResolvePackage(url, base).Ok?
    ensures ResolvePackage(url, base).value in base
  {
    LookupFinds(base, if IsRef(url) then TrimPrefix(url, REF) else InheritName(url));
  }

  // ---------------------------------------------------------------------------
  // Order of the base list
  // ---------------------------------------------------------------------------

  /** Base packages that share a name are the same package. */
  ghost predicate NamesArePackages(base: seq<string>) {
    forall a, b :: a in base && b in base && a != "" && b != "" && Name(a) == Name(b) != "" ==> a == b
  }

  ghost predicate SamePackages(base: seq<string>, other: seq<string>) {
    multiset(base) == multiset(other)
  }

  /** Every reference resolves to the same outcome for every order of the base list. */
  ghost predicate BaseOrderIrrelevant(base: seq<string>) {
    forall other, url :: SamePackages(base, other) ==> ResolvePackage(url, other) == ResolvePackage(url, base)
  }

  lemma SameLookup(base: seq<string>, other: seq<string>, name: string)
    requires NamesArePackages(base) && SamePackages(base, other) && name != ""
    ensures Lookup(other, name) == Lookup(base, name)
  {
    LookupFinds(base, name);
    LookupFinds(other, name);
    assert forall b :: b in base <==> b in multiset(base);
    assert forall b :: b in other <==> b in multiset(other);
  }

  function MoveFirst(base: seq<string>, i: nat): seq<string>
    requires i < |base|
  {
    [base[i]] + base[..i] + base[i + 1..]
  }

  lemma {:induction false} MoveFirstPermutes(base: seq<string>, i: nat)
    requires i < |base|
    ensures SamePackages(base, MoveFirst(base, i))
  {
    assert base == base[..i] + [base[i]] + base[i + 1..];
  }

  /** `ref://name` finds whichever package of that name comes first. */
  lemma FirstWins(base: seq<string>, i: nat)
    requires i < |base| && base[i] != "" && Name(base[i]) != ""
    ensures SamePackages(base, MoveFirst(base, i))
    ensures ResolvePackage(REF + Name(base[i]), MoveFirst(base, i)) == Ok(base[i])
  {
    MoveFirstPermutes(base, i);
    var url, moved := REF + Name(base[i]), MoveFirst(base, i);
    assert TrimPrefix(url, REF) == Name(base[i]);
    assert moved[0] == base[i] && Lookup(moved, Name(base[i])) == Some(base[i]);
  }

  lemma SameResolution(base: seq<string>, other: seq<string>, url: string)
    requires NamesArePackages(base) && SamePackages(base, other)
    ensures ResolvePackage(url, other) == ResolvePackage(url, base)
  {
    if IsRef(url) && TrimPrefix(url, REF) != "" {
      SameLookup(base, other, TrimPrefix(url, REF));
    } else if IsInherit(url) && InheritName(url) != "" {
      SameLookup(base, other, InheritName(url));
    }
  }

  lemma RefFindsEach(base: seq<string>, a: string)
    requires BaseOrderIrrelevant(base) && a in base && a != "" && Name(a) != ""
    ensures ResolvePackage(REF + Name(a), base) == Ok(a)
  {
    var i: nat :| i < |base| && base[i] == a;
    FirstWins(base, i);
  }

  /** Resolution is independent of the order of the base list if and only if no
      two different base packages share a plugin name. */
  lemma BaseOrderIrrelevantIff(base: seq<string>)
    ensures BaseOrderIrrelevant(base) <==> NamesArePackages(base)
  {
    if NamesArePackages(base) {
      forall other, url | SamePackages(base, other) ensures ResolvePackage(url, other) == ResolvePackage(url, base) {
        SameResolution(base, other, url);
      }
    } else {
      var a, b :| a in base && b in base && a != "" && b != "" && Name(a) == Name(b) != "" && a != b;
      if BaseOrderIrrelevant(base) {
        RefFindsEach(base, a);
        RefFindsEach(base, b);
      }
    }
  }

  /** An `{{inherit}}` with a `!path` other than the base's own creates a second
      package of the same name: adding it to the base makes the order matter. */
  lemma NewPathCreatesAmbiguity(url: string, base: seq<string>)
    ensures IsInherit(url) && PluginPath(url) != "" && ResolvePackage(url, base).Ok? ==>
            var r, found := ResolvePackage(url, base).value, Lookup(base, InheritName(url)).value;
            && Name(r) == Name(found) && (r != found <==> PluginPath(url) != PluginPath(found))
            && (r != found ==> !BaseOrderIrrelevant(base + [r]))
  {
    if IsInherit(url) && PluginPath(url) != "" && ResolvePackage(url, base).Ok? {
      var r, found := ResolvePackage(url, base).value, Lookup(base, InheritName(url)).value;
      LookupFinds(base, InheritName(url));
      NewPathKeepsName(found, url);
      assert r == found ==> PluginPath(url) == PluginPath(found);
      assert found == Image(found) + PluginPath(found);
      assert found in base + [r] && r in base + [r];
      BaseOrderIrrelevantIff(base + [r]);
    }
  }

  lemma SecondChar(s: string, sub: string, i: nat)
    ensures OccursAt(s, sub, i) && |sub| > 1 ==> i + 1 < |s| && s[i + 1] == sub[1]
  {
  }

  /** The marker after a text without braces is found where it is. */
  lemma RemoveMarker(image: string)
    requires '{' !in image
    ensures RemoveFirst(image + INHERIT, INHERIT) == image
  {
    var s, n := image + INHERIT, |image|;
    assert s[n..n + |INHERIT|] == INHERIT;
    forall j: nat | j < n ensures !OccursAt(s, INHERIT, j) {
      assert s[j + 1] == if j + 1 < n then image[j + 1] else ':';
      SecondChar(s, INHERIT, j);
    }
    FirstOccurrenceAt(s, INHERIT, 0, n);
    assert s[..n] + s[n + |INHERIT|..] == image;
  }

  /** `oci://registry/name:{{inherit}}[!path]` asks for the plugin `name`. */
  lemma {:induction false} InheritNameRoundTrip(registry: string, name: string, path: Option<string>)
    requires name != "" && Free(Some(name), {'/', ':', '@', '!', '{'})
    requires Free(Some(registry), {'@', '!', '{'}) && Free(path, {'!'})
    ensures InheritName(OCI + registry + "/" + name + INHERIT + Part('!', path)) == name
  {
    var image := OCI + registry + "/" + name;
    BareImage(registry, name);
    ImageOf(image + INHERIT, path);
    RemoveMarker(image);
    OciNameRoundTrip(registry, name, None, None, None);
  }

  lemma BareImage(registry: string, name: string)
    requires Free(Some(name), {'!', '{'}) && Free(Some(registry), {'!', '{'})
    ensures var image := OCI + registry + "/" + name;
            && '!' !in image + INHERIT && '{' !in image
            && OciUrl(registry, name, None, None, None) == image
  {
    var image := OCI + registry + "/" + name;
    assert OciUrl(registry, name, None, None, None) == image + "" + "" + "";
  }

  /** Inheriting with another path: afterwards the order of the packages decides
      what `ref://name` means. */
  lemma {:induction false} InheritMakesAmbiguous(registry: string, name: string, tag: string,
                                                 path: string, path': string)
    requires name != "" && Free(Some(name), {'/', ':', '@', '!', '{'}) && Free(Some(registry), {'@', '!', '{'})
    requires Free(Some(tag), {'/', ':', '@', '!'}) && '!' !in path && '!' !in path' && path != path'
    ensures var found := OciUrl(registry, name, Some(tag), None, Some(path));
            var url := OCI + registry + "/" + name + INHERIT + Part('!', Some(path'));
            && ResolvePackage(url, [found]) == Ok(Image(found) + Part('!', Some(path')))
            && !BaseOrderIrrelevant([found] + [ResolvePackage(url, [found]).value])
  {
    var image := OCI + registry + "/" + name;
    var found, url := OciUrl(registry, name, Some(tag), None, Some(path)), image + INHERIT + Part('!', Some(path'));
    InheritNameRoundTrip(registry, name, Some(path'));
    OciNameRoundTrip(registry, name, Some(tag), None, Some(path));
    MarkerIsInherit(image, Part('!', Some(path')));
    PathIs(image + INHERIT, path');
    OciPath(registry, name, tag, path);
    OtherPart(path, path');
    OneInherit(url, found);
  }

  lemma OciPath(registry: string, name: string, tag: string, path: string)
    requires '!' !in path
    ensures PluginPath(OciUrl(registry, name, Some(tag), None, Some(path))) == Part('!', Some(path))
  {
    var image := OCI + registry + "/" + name + Part(':', Some(tag));
    assert OciUrl(registry, name, Some(tag), None, Some(path)) == image + Part('!', Some(path));
    PathIs(image, path);
  }

  lemma OtherPart(path: string, path': string)
    requires path != path'
    ensures Part('!', Some(path)) != Part('!', Some(path'))
  {
    assert Part('!', Some(path))[1..] == path && Part('!', Some(path'))[1..] == path';
  }

  lemma OneInherit(url: string, found: string)
    requires IsInherit(url) && InheritName(url) == Name(found) != "" && PluginPath(url) != ""
    requires PluginPath(url) != PluginPath(found)
    ensures ResolvePackage(url, [found]) == Ok(Image(found) + PluginPath(url))
    ensures !BaseOrderIrrelevant([found] + [Image(found) + PluginPath(url)])
  {
    NamedIsDirect(found);
    assert Lookup([found], Name(found)) == Some(found);
    NewPathCreatesAmbiguity(url, [found]);
  }

  lemma MarkerIsInherit(image: string, path: string)
    requires HasPrefix(image, OCI)
    ensures IsInherit(image + INHERIT + path)
  {
    var url := image + INHERIT + path;
    assert url[0] == OCI[0] != REF[0];
    assert url[|image|..|image| + |INHERIT|] == INHERIT;
    assert OccursAt(url, INHERIT, |image|);
  }

  lemma PathIs(image: string, path: string)
    requires '!' !in path
    ensures PluginPath(image + Part('!', Some(path))) == Part('!', Some(path))
  {
    LastIndexOf(image, '!', path);
    assert image + Part('!', Some(path)) == image + ['!'] + path;
    assert (image + ['!'] + path)[|image|..] == ['!'] + path;
  }

  /** `oci://r/p:1!a` and an inherited `!b`: `ref://p` now depends on the order. */
  lemma AmbiguityExample()
    ensures var found, url := OciUrl("r", "p", Some("1"), None, Some("a")), OCI + "r" + "/" + "p" + INHERIT + "!b";
            ResolvePackage(url, [found]).Ok? && !BaseOrderIrrelevant([found] + [ResolvePackage(url, [found]).value])
  {
    assert Part('!', Some("b")) == "!b";
    InheritMakesAmbiguous("r", "p", "1", "a", "b");
  }
}
