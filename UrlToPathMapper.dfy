/**
 * Mapping a URL to a relative local path (LightGet/Logic/UrlToPathMapper.cs),
 * with "\" as the directory separator and the invalid path characters of
 * the .NET Framework (Path.GetInvalidPathChars).
 */
module UrlToPathMapper {
  import opened Wrappers
  import opened Text
  import opened Uris
  import opened MappingRules

  datatype PathError =
    | RelativeToRequired      // ArgumentNullException from the constructor
    | UrlNotAbsolute          // ArgumentException from GetPath
    | RelativeToNotAbsolute   // InvalidOperationException: LocalPath of a relative Uri
    | EmptyPath               // ArgumentException: Path.GetDirectoryName("")
    | InvalidPathCharacters   // ArgumentException from Path.GetDirectoryName or Path.Combine
    | NoDirectory             // ArgumentNullException: Path.Combine of the null GetDirectoryName gives for a root

  /** A constructed mapper: the rule and the optional URL that relative paths are taken from. */
  datatype Mapper = Mapper(rule: PathMappingRule, relativeTo: Option<UriReference>)

  /** The relative rule needs a base URL. */
  predicate NeedsRelativeTo(rule: PathMappingRule) {
    rule.includePath && !rule.includeParentPath
  }

  /** The invariant every constructed mapper keeps. */
  predicate Valid(m: Mapper) {
    NeedsRelativeTo(m.rule) ==> m.relativeTo.Some?
  }

  /** The constructor: fails exactly when the rule maps relative paths and no base URL is given. */
  function NewMapper(rule: PathMappingRule, relativeTo: Option<UriReference>): (r: Result<Mapper, PathError>)
    ensures r.Failure? <==> NeedsRelativeTo(rule) && relativeTo.None?
    ensures r.Failure? ==> r.error == RelativeToRequired
    ensures r.Success? ==> Valid(r.value) && r.value.rule == rule && r.value.relativeTo == relativeTo
  {
    if rule.includePath && !rule.includeParentPath && relativeTo.None? then
      Failure(RelativeToRequired)
    else
      Success(Mapper(rule, relativeTo))
  }

  // ---------------------------------------------------------------------
  // Path characters.

  /** Path.GetInvalidPathChars() on the .NET Framework: '"', '<', '>', '|' and U+0000 to U+001F. */
  predicate IsInvalidPathChar(c: char) {
    c as int < 32 || c == '"' || c == '<' || c == '>' || c == '|'
  }

  /** The characters SanitizePattern matches: the invalid path characters and both separators. */
  predicate IsSanitized(c: char) {
    IsInvalidPathChar(c) || c == '\\' || c == '/'
  }

  predicate HasInvalidPathChar(s: string) {
    exists i :: 0 <= i < |s| && IsInvalidPathChar(s[i])
  }

  /** UrlToPathMapper.Sanitize: every matched character becomes "_". */
  function Sanitize(part: string): string {
    seq(|part|, i requires 0 <= i < |part| => if IsSanitized(part[i]) then '_' else part[i])
  }

  /** Sanitising keeps the length and every other character, and leaves no separator or invalid path character. */
  lemma SanitizeReplacesOnlyMatches(part: string)
    ensures var r := Sanitize(part);
      |r| == |part| &&
      (forall i :: 0 <= i < |part| ==> r[i] == (if IsSanitized(part[i]) then '_' else part[i])) &&
      forall i :: 0 <= i < |r| ==> !IsSanitized(r[i])
  {
  }

  /** A local path with "/" replaced by the directory separator. */
  function ToSeparators(localPath: string): string {
    ReplaceChar(localPath, '/', '\\')
  }

  /** The RemoveStart extension: drops `prefix` when `s` starts with it. */
  function RemoveStart(s: string, prefix: string): (r: string)
    ensures StartsWith(s, prefix) ==> s == prefix + r
    ensures !StartsWith(s, prefix) ==> r == s
  {
    if StartsWith(s, prefix) then s[|prefix|..] else s
  }

  /**
   * Path.GetRootLength on the .NET Framework, for a path whose separator is
   * "\\": a UNC prefix "\\\\server\\share", a single leading separator,
   * or a drive "c:" with the separator after it.
   */
  function RootLength(path: string): (n: nat)
    ensures n <= |path|
    ensures n == 0 <==> (path == [] || path[0] != '\\') && (|path| < 2 || path[1] != ':')
  {
    if |path| >= 1 && path[0] == '\\' then
      if |path| >= 2 && path[1] == '\\' then UncRootEnd(path, 2, 2) else 1
    else if |path| >= 2 && path[1] == ':' then
      if |path| >= 3 && path[2] == '\\' then 3 else 2
    else 0
  }

  /** The scan of GetRootLength past "\\\\": it stops at the second separator from i on, or at the end. */
  function UncRootEnd(path: string, i: nat, n: nat): (k: nat)
    requires i <= |path| && n >= 1
    ensures i <= k <= |path|
    ensures k < |path| ==> path[k] == '\\'
    decreases |path| - i
  {
    if i == |path| then i
    else if path[i] != '\\' then UncRootEnd(path, i + 1, n)
    else if n > 1 then UncRootEnd(path, i + 1, n - 1)
    else i
  }

  /**
   * Path.GetDirectoryName: everything before the last separator that lies
   * at or after the root, or the root itself when no separator follows it;
   * null (NoDirectory) when the path is a root and nothing more.
   */
  function GetDirectoryName(path: string): (r: Result<string, PathError>)
    ensures path == [] ==> r == Failure(EmptyPath)
    ensures path != [] && HasInvalidPathChar(path) ==> r == Failure(InvalidPathCharacters)
    ensures path != [] && !HasInvalidPathChar(path) ==> (r == Failure(NoDirectory) <==> |path| <= RootLength(path))
    ensures r.Success? ==> StartsWith(path, r.value) && RootLength(path) <= |r.value| < |path|
    ensures r.Success? ==> forall j :: |r.value| < j < |path| ==> path[j] != '\\'
    ensures r.Success? && |r.value| > RootLength(path) ==> path[|r.value|] == '\\'
  {
    if path == [] then Failure(EmptyPath)
    else if HasInvalidPathChar(path) then Failure(InvalidPathCharacters)
    else
      var root := RootLength(path);
      if |path| <= root then Failure(NoDirectory)
      else
        var rest := path[root..];
        var k := AfterLast(rest, '\\');
        assert forall j :: root + k <= j < |path| ==> path[j] == rest[j - root];
        Success(path[..if k == 0 then root else root + k - 1])
  }

  /** Path.IsPathRooted: a leading separator or a drive letter. */
  predicate IsPathRooted(p: string) {
    (|p| >= 1 && (p[0] == '\\' || p[0] == '/')) || (|p| >= 2 && p[1] == ':')
  }

  /** Path.Combine of two strings. */
  function Combine(first: string, second: string): (r: Result<string, PathError>)
    ensures HasInvalidPathChar(first) || HasInvalidPathChar(second) <==> r == Failure(InvalidPathCharacters)
    ensures r.Success? && first != [] && second != [] && !IsPathRooted(second) ==>
      r.value == first + (if first[|first| - 1] in "\\/:" then "" else "\\") + second
    ensures r.Success? && (first == [] || IsPathRooted(second)) ==> r.value == second
    ensures r.Success? && second == [] ==> r.value == first
  {
    if HasInvalidPathChar(first) || HasInvalidPathChar(second) then Failure(InvalidPathCharacters)
    else if second == [] then Success(first)
    else if first == [] then Success(second)
    else if IsPathRooted(second) then Success(second)
    else if first[|first| - 1] in "\\/:" then Success(first + second)
    else Success(first + "\\" + second)
  }

  // ---------------------------------------------------------------------
  // The mapped path, part by part.

  function HostPart(rule: PathMappingRule, u: Uri): string {
    if rule.includeHost then u.authority.host else ""
  }

  /** "_<port>" for a port that is not the scheme's default, when the rule includes ports. */
  function PortPart(rule: PathMappingRule, u: Uri): string {
    if !u.authority.isDefaultPort && rule.includePort then "_" + NatToString(u.authority.port) else ""
  }

  /** The local path in separator form, taken relative to the base URL's local path under the relative rule. */
  function PathPart(m: Mapper, u: Uri): Result<string, PathError>
    requires Valid(m)
  {
    if u.localPath != "/" && m.rule.includePath then
      if !m.rule.includeParentPath then
        var relativeTo := m.relativeTo.value;
        if relativeTo.Absolute? then
          Success(RemoveStart(ToSeparators(u.localPath), ToSeparators(relativeTo.uri.localPath)))
        else
          Failure(RelativeToNotAbsolute)
      else
        Success(ToSeparators(u.localPath))
    else
      Success("")
  }

  /** Removes one leading separator. */
  function DropLeadingSeparator(s: string): (r: string)
    ensures s != [] && s[0] == '\\' ==> r == s[1..]
    ensures s == [] || s[0] != '\\' ==> r == s
  {
    if |s| > 0 && s[0] == '\\' then s[1..] else s
  }

  predicate NeedsSeparator(s: string) {
    |s| > 0 && s[|s| - 1] != '\\'
  }

  predicate IsDirectoryUrl(u: Uri) {
    EndsWith(u.localPath, "/")
  }

  /**
   * What follows the path when no file name is given: the sanitised query
   * after "_", or "_" alone for a directory URL, preceded by a separator
   * for a directory URL whose path does not already end in one.
   */
  function NameSuffix(u: Uri, body: string): string {
    var query := TrimStart(u.query, '?');
    var separator := if IsDirectoryUrl(u) && NeedsSeparator(body) then "\\" else "";
    if query != [] then separator + "_" + Sanitize(query)
    else if IsDirectoryUrl(u) then separator + "_"
    else ""
  }

  /** Host, port segment and path, with one leading separator removed. */
  function Body(m: Mapper, u: Uri): Result<string, PathError>
    requires Valid(m)
  {
    match PathPart(m, u)
    case Failure(e) => Failure(e)
    case Success(p) => Success(DropLeadingSeparator(HostPart(m.rule, u) + PortPart(m.rule, u) + p))
  }

  /** The path GetPath returns, or the exception it throws. */
  function MappedPath(m: Mapper, url: UriReference, fileName: Option<string>): Result<string, PathError>
    requires Valid(m)
  {
    if url.Relative? then Failure(UrlNotAbsolute)
    else
      match Body(m, url.uri)
      case Failure(e) => Failure(e)
      case Success(body) =>
        match fileName
        case Some(f) =>
          (match GetDirectoryName(body)
           case Failure(e) => Failure(e)
           case Success(directory) => Combine(directory, f))
        case None => Success(body + NameSuffix(url.uri, body))
  }

  /** UrlToPathMapper.GetPath, appending to the result step by step. */
  method GetPath(mapper: Mapper, url: UriReference, fileName: Option<string>) returns (r: Result<string, PathError>)
    requires Valid(mapper)
    ensures r == MappedPath(mapper, url, fileName)
  {
    if !url.Absolute? {
      return Failure(UrlNotAbsolute);
    }
    var u := url.uri;
    var rule := mapper.rule;

    var result := "";
    if rule.includeHost {
      result := result + u.authority.host;
    }

    if !u.authority.isDefaultPort && rule.includePort {
      result := result + "_" + NatToString(u.authority.port);
    }
    assert result == HostPart(rule, u) + PortPart(rule, u);

    if u.localPath != "/" && rule.includePath {
      var path := ReplaceChar(u.localPath, '/', '\\');
      if !rule.includeParentPath {
        var relativeTo := mapper.relativeTo.value;
        if !relativeTo.Absolute? {
          return Failure(RelativeToNotAbsolute);
        }
        var rootPath := ReplaceChar(relativeTo.uri.localPath, '/', '\\');
        path := RemoveStart(path, rootPath);
      }
      assert PathPart(mapper, u) == Success(path);
      result := result + path;
    } else {
      assert PathPart(mapper, u) == Success("");
      assert result == result + "";
    }
    assert Success(result) == match PathPart(mapper, u)
      case Failure(e) => Failure(e)
      case Success(p) => Success(HostPart(rule, u) + PortPart(rule, u) + p);

    if |result| > 0 && result[0] == '\\' {
      result := result[1..];
    }
    assert Body(mapper, u) == Success(result);

    // the query is ignored when there is a file name
    if fileName.Some? {
      var directory := GetDirectoryName(result);
      if directory.Failure? {
        return Failure(directory.error);
      }
      return Combine(directory.value, fileName.value);
    }

    result := AppendNamePart(result, u);
    return Success(result);
  }

  /** The tail of GetPath when no file name is given: the query part or the "_" placeholder. */
  method AppendNamePart(body: string, u: Uri) returns (result: string)
    ensures result == body + NameSuffix(u, body)
  {
    result := body;
    var pathIsFile := !EndsWith(u.localPath, "/"); // heuristics
    var resultNeedsSeparator := |result| > 0 && result[|result| - 1] != '\\';
    ghost var separator := if !pathIsFile && resultNeedsSeparator then "\\" else "";

    var query := TrimStart(u.query, '?');
    var hasQuery := query != [];
    if hasQuery {
      if !pathIsFile && resultNeedsSeparator {
        result := result + "\\";
      }
      result := result + "_" + Sanitize(query);
      Associate(body, separator, "_", Sanitize(query));
    }

    // a directory URL without a query gets "_" as its file name
    if !hasQuery && !pathIsFile {
      if resultNeedsSeparator {
        result := result + "\\";
      }
      result := result + "_";
      Associate(body, separator, "_", "");
    }

    if !hasQuery && pathIsFile {
      assert result == body + "";
    }
  }

  /** Regrouping the appends of the builder. */
  lemma Associate(a: string, b: string, c: string, d: string)
    ensures a + b + c + d == a + (b + c + d)
    ensures a + b + c == a + (b + c)
    ensures a + (b + c + d) == a + b + (c + d)
  {
  }

  // ---------------------------------------------------------------------
  // Properties.

  /** Without a file name the mapped path is the body followed by the name suffix. */
  lemma WithoutFileName(m: Mapper, u: Uri)
    requires Valid(m) && Body(m, u).Success?
    ensures MappedPath(m, Absolute(u), None) == Success(Body(m, u).value + NameSuffix(u, Body(m, u).value))
  {
  }

  /** A relative URL is rejected before anything else is looked at. */
  lemma RelativeUrlIsRejected(m: Mapper, r: RelativeReference, fileName: Option<string>)
    requires Valid(m)
    ensures MappedPath(m, Relative(r), fileName) == Failure(UrlNotAbsolute)
  {
  }

  /**
   * The port segment: the mapped path of a URL is that of the same URL on
   * its default port, with "_<port>" inserted right after the host when the
   * port is not the default and the rule includes ports.
   */
  lemma PortSegmentFollowsHost(m: Mapper, u: Uri, fileName: Option<string>)
    requires Valid(m) && m.rule.includeHost && fileName.None?
    requires u.authority.host != [] && '\\' !in u.authority.host
    ensures var onDefault := u.(authority := u.authority.(isDefaultPort := true));
      var a := MappedPath(m, Absolute(u), fileName);
      var b := MappedPath(m, Absolute(onDefault), fileName);
      a.Success? == b.Success? &&
      (a.Success? ==>
        StartsWith(b.value, u.authority.host) &&
        a.value == u.authority.host
                   + (if !u.authority.isDefaultPort && m.rule.includePort then "_" + NatToString(u.authority.port) else "")
                   + b.value[|u.authority.host|..])
  {
    var onDefault := u.(authority := u.authority.(isDefaultPort := true));
    var host := u.authority.host;
    assert PathPart(m, u) == PathPart(m, onDefault);
    assert PortPart(m.rule, onDefault) == "";
    if PathPart(m, u).Success? {
      var p := PathPart(m, u).value;
      var port := PortPart(m.rule, u);
      PortBodies(m, u, onDefault, p);
      var a := host + port + p;
      var b := host + p;
      PortPartHasNoSeparator(m.rule, u);
      PortKeepsNeedsSeparator(host, port, p);
      SameSuffix(u, onDefault, a, b);
      WithoutFileName(m, u);
      WithoutFileName(m, onDefault);
      TailAfterHost(host, port, p, NameSuffix(u, a));
    }
  }

  lemma PortBodies(m: Mapper, u: Uri, onDefault: Uri, p: string)
    requires Valid(m) && m.rule.includeHost
    requires u.authority.host != [] && '\\' !in u.authority.host
    requires onDefault == u.(authority := u.authority.(isDefaultPort := true))
    requires PathPart(m, u) == Success(p) && PathPart(m, onDefault) == Success(p)
    ensures Body(m, u) == Success(u.authority.host + PortPart(m.rule, u) + p)
    ensures Body(m, onDefault) == Success(u.authority.host + p)
  {
    var host := u.authority.host;
    assert host[0] != '\\' by { assert host[0] in host; }
    assert (host + PortPart(m.rule, u) + p)[0] == host[0];
    assert PortPart(m.rule, onDefault) == "";
    assert host + PortPart(m.rule, onDefault) + p == host + p;
    assert (host + p)[0] == host[0];
  }

  lemma SameSuffix(u: Uri, v: Uri, a: string, b: string)
    requires u.query == v.query && u.localPath == v.localPath
    requires NeedsSeparator(a) == NeedsSeparator(b)
    ensures NameSuffix(u, a) == NameSuffix(v, b)
  {
  }

  lemma PortPartHasNoSeparator(rule: PathMappingRule, u: Uri)
    ensures '\\' !in PortPart(rule, u)
  {
    if !u.authority.isDefaultPort && rule.includePort {
      var digits := NatToString(u.authority.port);
      assert forall i :: 0 <= i < |digits| ==> digits[i] != '\\' by {
        forall i | 0 <= i < |digits| ensures digits[i] != '\\' {
          assert IsDigit(digits[i]);
        }
      }
      assert PortPart(rule, u) == "_" + digits;
    }
  }

  /** A port segment after the host does not change whether the body needs a separator at its end. */
  lemma PortKeepsNeedsSeparator(host: string, port: string, p: string)
    requires host != [] && '\\' !in host && '\\' !in port
    ensures NeedsSeparator(host + port + p) == NeedsSeparator(host + p)
  {
    var a := host + port + p;
    var b := host + p;
    if p == [] {
      assert b[|b| - 1] == host[|host| - 1];
      assert host[|host| - 1] in host;
      if port != [] {
        assert a[|a| - 1] == port[|port| - 1];
        assert port[|port| - 1] in port;
      } else {
        assert a == b;
      }
    } else {
      assert a[|a| - 1] == p[|p| - 1] && b[|b| - 1] == p[|p| - 1];
    }
  }

  lemma TailAfterHost(host: string, port: string, p: string, suffix: string)
    ensures StartsWith(host + p + suffix, host)
    ensures host + port + p + suffix == host + port + (host + p + suffix)[|host|..]
  {
    assert (host + p + suffix)[..|host|] == host;
    assert (host + p + suffix)[|host|..] == p + suffix;
  }

  /** With host and port left out, exactly one leading separator is removed from the local path. */
  lemma OneLeadingSeparatorRemoved(m: Mapper, u: Uri)
    requires Valid(m) && !m.rule.includeHost && PortPart(m.rule, u) == ""
    requires m.rule.includePath && m.rule.includeParentPath
    requires u.localPath != "/" && u.localPath != [] && u.localPath[0] == '/'
    requires !IsDirectoryUrl(u) && TrimStart(u.query, '?') == []
    ensures MappedPath(m, Absolute(u), None) == Success(ToSeparators(u.localPath)[1..])
  {
    var p := ToSeparators(u.localPath);
    assert p[0] == '\\';
    assert HostPart(m.rule, u) + PortPart(m.rule, u) + p == p;
    assert Body(m, u) == Success(p[1..]);
    assert NameSuffix(u, p[1..]) == "";
    WithoutFileName(m, u);
    assert p[1..] + "" == p[1..];
  }

  /** The query part is "_" and the sanitised query, which holds no separator and no invalid path character. */
  lemma QueryBecomesLastSegment(m: Mapper, u: Uri)
    requires Valid(m) && Body(m, u).Success?
    requires TrimStart(u.query, '?') != []
    ensures var r := MappedPath(m, Absolute(u), None);
      r.Success? && EndsWith(r.value, "_" + Sanitize(TrimStart(u.query, '?')))
  {
    var query := TrimStart(u.query, '?');
    var body := Body(m, u).value;
    var separator := if IsDirectoryUrl(u) && NeedsSeparator(body) then "\\" else "";
    var tail := "_" + Sanitize(query);
    assert NameSuffix(u, body) == separator + tail;
    var r := body + (separator + tail);
    assert MappedPath(m, Absolute(u), None) == Success(r);
    assert r == (body + separator) + tail;
    assert r[|r| - |tail|..] == tail;
  }

  /** With a file name, the query plays no part. */
  lemma FileNameIgnoresQuery(m: Mapper, u: Uri, f: string, otherQuery: string)
    requires Valid(m)
    ensures MappedPath(m, Absolute(u), Some(f)) == MappedPath(m, Absolute(u.(query := otherQuery)), Some(f))
  {
    assert PathPart(m, u) == PathPart(m, u.(query := otherQuery));
  }

  /** With a file name, the last segment of the mapped path is replaced by it. */
  lemma FileNameReplacesLastSegment(m: Mapper, u: Uri, f: string, directory: string, last: string)
    requires Valid(m) && Body(m, u) == Success(directory + "\\" + last)
    requires directory != [] && directory[|directory| - 1] !in "\\/:"
    requires '\\' !in last && !HasInvalidPathChar(directory + "\\" + last)
    requires RootLength(directory + "\\" + last) <= |directory|
    requires f != [] && !IsPathRooted(f) && !HasInvalidPathChar(f)
    ensures MappedPath(m, Absolute(u), Some(f)) == Success(directory + "\\" + f)
  {
    DirectoryOfLastSegment(directory, last);
    assert Combine(directory, f) == Success(directory + "\\" + f);
  }

  /** Below the root, the directory of "<directory>\\<last>" is <directory>. */
  lemma DirectoryOfLastSegment(directory: string, last: string)
    requires directory != [] && '\\' !in last && !HasInvalidPathChar(directory + "\\" + last)
    requires RootLength(directory + "\\" + last) <= |directory|
    ensures GetDirectoryName(directory + "\\" + last) == Success(directory)
    ensures !HasInvalidPathChar(directory)
  {
    var body := directory + "\\" + last;
    assert !HasInvalidPathChar(directory) by {
      forall i | 0 <= i < |directory| ensures !IsInvalidPathChar(directory[i]) {
        assert directory[i] == body[i];
      }
    }
    var r := GetDirectoryName(body);
    assert body[|directory|] == '\\';
    assert body[..|directory|] == directory;
  }

  /** A root directory: a single separator, or a drive with its separator. */
  predicate IsRootDirectory(root: string) {
    root == "\\" || (|root| == 3 && root[0] != '\\' && root[1] == ':' && root[2] == '\\')
  }

  /** With a file name, a last segment right below a root is replaced and the root is kept. */
  lemma FileNameUnderRoot(m: Mapper, u: Uri, f: string, root: string, last: string)
    requires Valid(m) && Body(m, u) == Success(root + last)
    requires IsRootDirectory(root) && last != [] && '\\' !in last && !HasInvalidPathChar(root + last)
    requires f != [] && !IsPathRooted(f) && !HasInvalidPathChar(f)
    ensures MappedPath(m, Absolute(u), Some(f)) == Success(root + f)
  {
    var body := root + last;
    assert RootLength(body) == |root|;
    assert !HasInvalidPathChar(root) by {
      forall i | 0 <= i < |root| ensures !IsInvalidPathChar(root[i]) {
        assert root[i] == body[i];
      }
    }
    var r := GetDirectoryName(body);
    assert body[..|root|] == root;
    assert r == Success(root);
    assert Combine(root, f) == Success(root + f);
  }

  /** With a file name, a path that is only a root has no directory, and Path.Combine throws. */
  lemma BareRootHasNoDirectory(m: Mapper, u: Uri, f: string, root: string)
    requires Valid(m) && Body(m, u) == Success(root)
    requires root == "\\" || (|root| >= 2 && root[0] != '\\' && root[1] == ':' && (|root| == 2 || (|root| == 3 && root[2] == '\\')))
    requires !HasInvalidPathChar(root)
    ensures MappedPath(m, Absolute(u), Some(f)) == Failure(NoDirectory)
  {
    assert RootLength(root) == |root|;
  }

  /** With host and port left out, http://x.com//a with file name f maps to \\f: the body is rooted and its root is kept. */
  lemma DoubleSlashRow(n: Mapper)
    requires n == Mapper(PathMappingRule(false, false, true, true), None)
    ensures MappedPath(n, Absolute(Uri("http", Authority("x.com", 80, true), "//a", "")), Some("f")) == Success("\\f")
  {
    var a := Uri("http", Authority("x.com", 80, true), "//a", "");
    assert ToSeparators("//a") == "\\\\a";
    assert Body(n, a) == Success("\\" + "a") by {
      assert HostPart(n.rule, a) + PortPart(n.rule, a) + "\\\\a" == "\\\\a";
      assert PathPart(n, a) == Success("\\\\a");
      assert "\\\\a"[1..] == "\\" + "a";
    }
    FileNameUnderRoot(n, a, "f", "\\", "a");
    assert "\\" + "f" == "\\f";
  }

  /** With host and port left out, http://x.com/c:/x with file name f maps to c:\\f. */
  lemma DriveRow(n: Mapper)
    requires n == Mapper(PathMappingRule(false, false, true, true), None)
    ensures MappedPath(n, Absolute(Uri("http", Authority("x.com", 80, true), "/c:/x", "")), Some("f")) == Success("c:\\f")
  {
    var c := Uri("http", Authority("x.com", 80, true), "/c:/x", "");
    DriveRowBody(n, c);
    DriveRowLegal();
    assert IsRootDirectory("c:\\");
    FileNameUnderRoot(n, c, "f", "c:\\", "x");
    assert "c:\\" + "f" == "c:\\f";
  }

  lemma DriveRowBody(n: Mapper, c: Uri)
    requires n == Mapper(PathMappingRule(false, false, true, true), None)
    requires c == Uri("http", Authority("x.com", 80, true), "/c:/x", "")
    ensures Body(n, c) == Success("c:\\" + "x")
  {
    assert ToSeparators("/c:/x") == "\\c:\\x";
    assert HostPart(n.rule, c) + PortPart(n.rule, c) + "\\c:\\x" == "\\c:\\x";
    assert PathPart(n, c) == Success("\\c:\\x");
    assert "\\c:\\x"[1..] == "c:\\" + "x";
  }

  lemma DriveRowLegal()
    ensures !HasInvalidPathChar("c:\\" + "x")
  {
    assert forall i :: 0 <= i < 4 ==> ("c:\\" + "x")[i] in "c:\\x";
  }

  /** With host and port left out, http://x.com// with a file name has no directory, and Path.Combine throws. */
  lemma BareRootRow(n: Mapper)
    requires n == Mapper(PathMappingRule(false, false, true, true), None)
    ensures MappedPath(n, Absolute(Uri("http", Authority("x.com", 80, true), "//", "")), Some("f")) == Failure(NoDirectory)
  {
    var r := Uri("http", Authority("x.com", 80, true), "//", "");
    assert ToSeparators("//") == "\\\\";
    assert Body(n, r) == Success("\\") by {
      assert HostPart(n.rule, r) + PortPart(n.rule, r) + "\\\\" == "\\\\";
    }
    BareRootHasNoDirectory(n, r, "f", "\\");
  }

  /** A directory URL without a query ends in "_", with a separator before it unless the path is empty or already ends in one. */
  lemma DirectoryGetsPlaceholder(m: Mapper, u: Uri)
    requires Valid(m) && Body(m, u).Success?
    requires IsDirectoryUrl(u) && TrimStart(u.query, '?') == []
    ensures var body := Body(m, u).value;
      MappedPath(m, Absolute(u), None) == Success(if NeedsSeparator(body) then body + "\\_" else body + "_")
  {
    var body := Body(m, u).value;
    assert "\\" + "_" == "\\_" && "" + "_" == "_";
    assert NameSuffix(u, body) == if NeedsSeparator(body) then "\\_" else "_";
    assert MappedPath(m, Absolute(u), None) == Success(body + NameSuffix(u, body));
  }

  /** The root URL under the default rule maps to "<host>\_". */
  lemma RootUrlMapsToHostPlaceholder(m: Mapper, u: Uri)
    requires Valid(m) && m.rule == DefaultRule
    requires u.localPath == "/" && u.query == [] && u.authority.isDefaultPort
    requires u.authority.host != [] && '\\' !in u.authority.host
    ensures MappedPath(m, Absolute(u), None) == Success(u.authority.host + "\\_")
  {
    var host := u.authority.host;
    assert host[0] in host && host[|host| - 1] in host;
    assert PathPart(m, u) == Success("");
    assert HostPart(m.rule, u) + PortPart(m.rule, u) + "" == host;
    assert Body(m, u) == Success(host);
    assert TrimStart(u.query, '?') == [];
    assert IsDirectoryUrl(u);
    DirectoryGetsPlaceholder(m, u);
  }

  /** Under the relative rule a link equal to the base URL maps to "_". */
  lemma RelativeBaseMapsToPlaceholder(m: Mapper, u: Uri)
    requires Valid(m) && m.rule == PathMappingRule(false, false, false, true)
    requires m.relativeTo == Some(Absolute(u))
    requires IsDirectoryUrl(u) && TrimStart(u.query, '?') == []
    ensures MappedPath(m, Absolute(u), None) == Success("_")
  {
    var p := ToSeparators(u.localPath);
    assert StartsWith(p, p);
    assert p[|p|..] == [];
    assert PathPart(m, u) == Success("");
    assert HostPart(m.rule, u) + PortPart(m.rule, u) + "" == "";
    assert Body(m, u) == Success("");
    DirectoryGetsPlaceholder(m, u);
    assert "" + "_" == "_";
  }

  /** Replacing slashes commutes with concatenation. */
  lemma ToSeparatorsAppend(a: string, b: string)
    ensures ToSeparators(a + b) == ToSeparators(a) + ToSeparators(b)
  {
  }

  /** Under the relative rule the body of a link below the base URL is its path below the base. */
  lemma RelativeBodyBelowBase(m: Mapper, base: Uri, u: Uri, below: string)
    requires Valid(m) && m.rule == PathMappingRule(false, false, false, true)
    requires m.relativeTo == Some(Absolute(base))
    requires u.localPath == base.localPath + below && below != [] && below[0] != '/' && below[0] != '\\'
    ensures Body(m, u) == Success(ToSeparators(below))
  {
    var p := ToSeparators(u.localPath);
    var root := ToSeparators(base.localPath);
    var b := ToSeparators(below);
    ToSeparatorsAppend(base.localPath, below);
    assert StartsWith(p, root) by { assert p[..|root|] == root; }
    assert p[|root|..] == b;
    assert u.localPath != "/" by {
      if base.localPath == [] {
        assert u.localPath == below;
      } else {
        assert |u.localPath| >= 2;
      }
    }
    assert b[0] != '\\';
    assert PathPart(m, u) == Success(b);
    assert HostPart(m.rule, u) + PortPart(m.rule, u) + b == b;
  }

  /** Under the relative rule a file link below the base URL maps to its path below the base. */
  lemma RelativeFileBelowBase(m: Mapper, base: Uri, u: Uri, below: string)
    requires Valid(m) && m.rule == PathMappingRule(false, false, false, true)
    requires m.relativeTo == Some(Absolute(base))
    requires u.localPath == base.localPath + below && below != [] && below[0] != '/' && below[0] != '\\'
    requires TrimStart(u.query, '?') == [] && !IsDirectoryUrl(u)
    ensures MappedPath(m, Absolute(u), None) == Success(ToSeparators(below))
  {
    RelativeBodyBelowBase(m, base, u, below);
    var b := ToSeparators(below);
    assert NameSuffix(u, b) == "";
    WithoutFileName(m, u);
    assert b + "" == b;
  }

  /** Under the relative rule a directory link below the base URL maps to its path below the base and "\_". */
  lemma RelativeDirectoryBelowBase(m: Mapper, base: Uri, u: Uri, below: string)
    requires Valid(m) && m.rule == PathMappingRule(false, false, false, true)
    requires m.relativeTo == Some(Absolute(base))
    requires u.localPath == base.localPath + below + "/" && below != [] && below[0] != '/' && below[0] != '\\'
    requires TrimStart(u.query, '?') == []
    ensures MappedPath(m, Absolute(u), None) == Success(ToSeparators(below) + "\\_")
  {
    assert u.localPath == base.localPath + (below + "/");
    RelativeBodyBelowBase(m, base, u, below + "/");
    ToSeparatorsAppend(below, "/");
    var front := ToSeparators(below);
    var b := ToSeparators(below + "/");
    assert ToSeparators("/") == "\\";
    assert b == front + "\\";
    assert !NeedsSeparator(b);
    assert IsDirectoryUrl(u) by {
      assert u.localPath[|u.localPath| - 1..] == "/";
    }
    DirectoryGetsPlaceholder(m, u);
    Associate(front, "\\", "_", "");
    assert "\\" + "_" == "\\_";
    assert b + "_" == front + "\\_";
  }

  // ---------------------------------------------------------------------
  // The table rows of LightGet.Tests/Of.Logic/UrlToPathMapperTests.cs.

  /** http://x.com maps to x.com\_ and, with host and port left out, to _. */
  lemma RootRows(m: Mapper, n: Mapper)
    requires m == Mapper(DefaultRule, None)
    requires n == Mapper(PathMappingRule(false, false, true, true), None)
    ensures MappedPath(m, Absolute(Uri("http", Authority("x.com", 80, true), "/", "")), None) == Success("x.com\\_")
    ensures MappedPath(n, Absolute(Uri("http", Authority("x.com", 80, true), "/", "")), None) == Success("_")
  {
    var u := Uri("http", Authority("x.com", 80, true), "/", "");
    RootUrlMapsToHostPlaceholder(m, u);
    assert "x.com" + "\\_" == "x.com\\_";
    assert Body(n, u) == Success("") by {
      assert HostPart(n.rule, u) + PortPart(n.rule, u) + "" == "";
    }
    DirectoryGetsPlaceholder(n, u);
    assert "" + "_" == "_";
  }

  /** http://x.com/a/b/c maps to x.com\a\b\c and, with host and port left out, to a\b\c. */
  lemma DeepPathRows(m: Mapper, n: Mapper)
    requires m == Mapper(DefaultRule, None)
    requires n == Mapper(PathMappingRule(false, false, true, true), None)
    ensures MappedPath(m, Absolute(Uri("http", Authority("x.com", 80, true), "/a/b/c", "")), None) == Success("x.com\\a\\b\\c")
    ensures MappedPath(n, Absolute(Uri("http", Authority("x.com", 80, true), "/a/b/c", "")), None) == Success("a\\b\\c")
  {
    var u := Uri("http", Authority("x.com", 80, true), "/a/b/c", "");
    assert ToSeparators("/a/b/c") == "\\a\\b\\c";
    assert Body(m, u) == Success("x.com\\a\\b\\c") by {
      assert HostPart(m.rule, u) + PortPart(m.rule, u) + "\\a\\b\\c" == "x.com\\a\\b\\c";
    }
    assert NameSuffix(u, "x.com\\a\\b\\c") == "";
    WithoutFileName(m, u);
    assert "x.com\\a\\b\\c" + "" == "x.com\\a\\b\\c";
    OneLeadingSeparatorRemoved(n, u);
    assert "\\a\\b\\c"[1..] == "a\\b\\c";
  }

  /** http://x.com?a=b/c maps to x.com\_a=b_c: the slash of the query is sanitised. */
  lemma QueryOnRootRow(m: Mapper)
    requires m == Mapper(DefaultRule, None)
    ensures MappedPath(m, Absolute(Uri("http", Authority("x.com", 80, true), "/", "?a=b/c")), None) == Success("x.com\\_a=b_c")
  {
    var u := Uri("http", Authority("x.com", 80, true), "/", "?a=b/c");
    assert Body(m, u) == Success("x.com") by {
      assert HostPart(m.rule, u) + PortPart(m.rule, u) + "" == "x.com";
    }
    assert TrimStart("?a=b/c", '?') == "a=b/c";
    assert Sanitize("a=b/c") == "a=b_c";
    assert NameSuffix(u, "x.com") == "\\" + "_" + "a=b_c";
    WithoutFileName(m, u);
    assert "x.com" + ("\\" + "_" + "a=b_c") == "x.com\\_a=b_c";
  }

  /** http://x.com:8080?a=b/c maps to x.com_8080\_a=b_c. */
  lemma PortAndQueryRow(m: Mapper)
    requires m == Mapper(DefaultRule, None)
    ensures MappedPath(m, Absolute(Uri("http", Authority("x.com", 8080, false), "/", "?a=b/c")), None) == Success("x.com_8080\\_a=b_c")
  {
    var u := Uri("http", Authority("x.com", 8080, false), "/", "?a=b/c");
    PortAndQueryBody(m, u);
    assert TrimStart("?a=b/c", '?') == "a=b/c";
    assert Sanitize("a=b/c") == "a=b_c";
    assert NameSuffix(u, "x.com_8080") == "\\" + "_" + "a=b_c";
    WithoutFileName(m, u);
    assert "x.com_8080" + ("\\" + "_" + "a=b_c") == "x.com_8080\\_a=b_c";
  }

  lemma PortAndQueryBody(m: Mapper, u: Uri)
    requires m == Mapper(DefaultRule, None)
    requires u == Uri("http", Authority("x.com", 8080, false), "/", "?a=b/c")
    ensures Body(m, u) == Success("x.com_8080")
  {
    assert NatToString(8080) == "8080";
    assert HostPart(m.rule, u) + PortPart(m.rule, u) + "" == "x.com_8080";
  }

  /** http://x.com/a?b=c maps to x.com\a_b=c: a file-like path takes the query without a separator. */
  lemma PathAndQueryRow(m: Mapper)
    requires m == Mapper(DefaultRule, None)
    ensures MappedPath(m, Absolute(Uri("http", Authority("x.com", 80, true), "/a", "?b=c")), None) == Success("x.com\\a_b=c")
  {
    var u := Uri("http", Authority("x.com", 80, true), "/a", "?b=c");
    assert ToSeparators("/a") == "\\a";
    assert Body(m, u) == Success("x.com\\a") by {
      assert HostPart(m.rule, u) + PortPart(m.rule, u) + "\\a" == "x.com\\a";
    }
    assert TrimStart("?b=c", '?') == "b=c";
    assert Sanitize("b=c") == "b=c";
    assert NameSuffix(u, "x.com\\a") == "" + "_" + "b=c";
    WithoutFileName(m, u);
    assert "x.com\\a" + ("" + "_" + "b=c") == "x.com\\a_b=c";
  }

  /** Under the relative rule with base http://x.com/a/: the base maps to _, /a/b to b and /a/b/ to b\_. */
  lemma RelativeRows(m: Mapper, base: Uri)
    requires base == Uri("http", Authority("x.com", 80, true), "/a/", "")
    requires m == Mapper(PathMappingRule(false, false, false, true), Some(Absolute(base)))
    ensures MappedPath(m, Absolute(base), None) == Success("_")
    ensures MappedPath(m, Absolute(base.(localPath := "/a/b")), None) == Success("b")
    ensures MappedPath(m, Absolute(base.(localPath := "/a/b/")), None) == Success("b\\_")
  {
    assert TrimStart("", '?') == [];
    RelativeBaseMapsToPlaceholder(m, base);
    assert "/a/b" == base.localPath + "b" && "/a/b/" == base.localPath + "b" + "/";
    assert !IsDirectoryUrl(base.(localPath := "/a/b"));
    RelativeFileBelowBase(m, base, base.(localPath := "/a/b"), "b");
    RelativeDirectoryBelowBase(m, base, base.(localPath := "/a/b/"), "b");
    assert ToSeparators("b") == "b";
    assert "b" + "\\_" == "b\\_";
  }

  /** With the file name something.zip, http://x.com/a?k=p and http://x.com/a map to x.com\something.zip. */
  lemma FileNameOnFileRows(m: Mapper, q: string)
    requires m == Mapper(DefaultRule, None)
    ensures MappedPath(m, Absolute(Uri("http", Authority("x.com", 80, true), "/a", q)), Some("something.zip")) == Success("x.com\\something.zip")
  {
    assert "x.com" + "\\" + "something.zip" == "x.com\\something.zip";
    var u := Uri("http", Authority("x.com", 80, true), "/a", q);
    assert ToSeparators("/a") == "\\a";
    assert Body(m, u) == Success("x.com" + "\\" + "a") by {
      assert HostPart(m.rule, u) + PortPart(m.rule, u) + "\\a" == "x.com" + "\\" + "a";
    }
    FileNameReplacesLastSegment(m, u, "something.zip", "x.com", "a");
  }

  /** With the file name something.zip, http://x.com/a/ maps to x.com\a\something.zip. */
  lemma FileNameInDirectoryRow(m: Mapper)
    requires m == Mapper(DefaultRule, None)
    ensures MappedPath(m, Absolute(Uri("http", Authority("x.com", 80, true), "/a/", "")), Some("something.zip")) == Success("x.com\\a\\something.zip")
  {
    assert "x.com\\a" + "\\" + "something.zip" == "x.com\\a\\something.zip";
    var u := Uri("http", Authority("x.com", 80, true), "/a/", "");
    assert ToSeparators("/a/") == "\\a\\";
    assert Body(m, u) == Success("x.com\\a" + "\\" + "") by {
      assert HostPart(m.rule, u) + PortPart(m.rule, u) + "\\a\\" == "x.com\\a" + "\\" + "";
    }
    FileNameReplacesLastSegment(m, u, "something.zip", "x.com\\a", "");
  }

  /** With the file name something.zip, http://x.com/a/b maps to x.com\a\something.zip. */
  lemma FileNameReplacesFileRow(m: Mapper)
    requires m == Mapper(DefaultRule, None)
    ensures MappedPath(m, Absolute(Uri("http", Authority("x.com", 80, true), "/a/b", "")), Some("something.zip")) == Success("x.com\\a\\something.zip")
  {
    assert "x.com\\a" + "\\" + "something.zip" == "x.com\\a\\something.zip";
    var v := Uri("http", Authority("x.com", 80, true), "/a/b", "");
    assert ToSeparators("/a/b") == "\\a\\b";
    assert Body(m, v) == Success("x.com\\a" + "\\" + "b") by {
      assert HostPart(m.rule, v) + PortPart(m.rule, v) + "\\a\\b" == "x.com\\a" + "\\" + "b";
    }
    FileNameReplacesLastSegment(m, v, "something.zip", "x.com\\a", "b");
  }
}
