/**
 * The part of Rust's `std::path` that the conversion worker relies on, stated at the level of
 * path components: `Path::extension`, `Path::file_stem`, `Path::file_name`, `PathBuf::join` of a
 * single file name and `Path::with_extension`, for Unix-style separators.
 */
module Paths {
  import opened Wrappers

  /** What a `Normal` path component can hold: non-empty, no separator, not a dot entry. */
  predicate IsName(s: string) {
    s != "" && s != "." && s != ".." && '/' !in s
  }

  /**
   * One element of `Path::components`. The component view drops empty segments and interior
   * `.` segments, so `CurDir` can only be the first element, and a `Normal` name is `IsName`.
   */
  datatype Component = RootDir | CurDir | ParentDir | Normal(name: string)

  type Path = seq<Component>

  /** Every normal component of the path holds a proper file name. */
  predicate ValidPath(p: Path) {
    forall i | 0 <= i < |p| :: p[i].Normal? ==> IsName(p[i].name)
  }

  /** Position of the last '.' in `s`, if there is one. */
  function LastDot(s: string): (r: Option<nat>)
    ensures r.Some? ==> r.value < |s| && s[r.value] == '.' && '.' !in s[r.value + 1..]
    ensures r.None? ==> '.' !in s
  {
    if |s| == 0 then None
    else if s[|s| - 1] == '.' then Some(|s| - 1)
    else
      var r := LastDot(s[..|s| - 1]);
      assert s == s[..|s| - 1] + [s[|s| - 1]];
      r
  }

  /** The last dot is the only dot with no dot after it. */
  lemma LastDotAt(s: string, i: nat)
    requires i < |s| && s[i] == '.' && '.' !in s[i + 1..]
    ensures LastDot(s) == Some(i)
  {
  }

  /**
   * Rust's `rsplit_file_at_dot`: the parts before and after the last dot of a file name. A name
   * whose only dot is its first character, and the name "..", have no "after" part.
   */
  function SplitAtDot(file: string): (Option<string>, Option<string>) {
    if file == ".." then (Some(file), None)
    else match LastDot(file)
      case None => (None, Some(file))
      case Some(i) =>
        if i == 0 then (Some(file), None) else (Some(file[..i]), Some(file[i + 1..]))
  }

  /** The "before" part is a non-empty prefix of the name; without it, "after" is the name. */
  lemma SplitAtDotParts(file: string)
    ensures SplitAtDot(file).0.Some? ==>
      && |SplitAtDot(file).0.value| <= |file|
      && (file != "" ==> SplitAtDot(file).0.value != "")
      && ('/' !in file ==> '/' !in SplitAtDot(file).0.value)
    ensures SplitAtDot(file).0.None? ==> SplitAtDot(file).1 == Some(file)
  {
    match LastDot(file)
    case None =>
    case Some(i) =>
      if file != ".." && i > 0 {
        assert SplitAtDot(file).0.value == file[..i];
        if '/' in file[..i] {
          var k :| 0 <= k < i && file[..i][k] == '/';
          assert file[k] == '/';
        }
      }
  }

  /** `file_stem` of a path whose file name is `file`: the "before" part, else the whole name. */
  function Stem(file: string): (r: string)
    ensures |r| <= |file|
    ensures file != "" ==> r != ""
    ensures '/' !in file ==> '/' !in r
  {
    SplitAtDotParts(file);
    var (before, after) := SplitAtDot(file);
    match before.Or(after)
    case Some(s) => s
    case None => file
  }

  /** `extension` of a path whose file name is `file`: present only when both parts are. */
  function Extension(file: string): Option<string> {
    var (before, after) := SplitAtDot(file);
    before.And(after)
  }

  /** A name splits back into its stem and extension; a name without extension is its own stem. */
  lemma StemExtensionRoundTrip(file: string)
    ensures Extension(file).Some? ==>
      && file == Stem(file) + "." + Extension(file).value
      && Stem(file) != ""
      && '.' !in Extension(file).value
    ensures Extension(file).None? ==> Stem(file) == file
  {
    if file != ".." && LastDot(file).Some? && LastDot(file).value != 0 {
      var i := LastDot(file).value;
      assert file == file[..i] + "." + file[i + 1..];
    }
  }

  /** Conversely, every split of a name at a dot with a non-empty part before it and no dot after
      it is the split `Extension` and `Stem` make. */
  lemma SplitIsExtension(file: string, before: string, after: string)
    requires file == before + "." + after
    requires before != "" && '.' !in after && file != ".."
    ensures Extension(file) == Some(after)
    ensures Stem(file) == before
  {
    var i := |before|;
    assert file[i + 1..] == after;
    LastDotAt(file, i);
    assert file[..i] == before;
  }

  /** A name with no dot, or whose only dot is its first character, has no extension. */
  lemma NoExtensionCases(file: string)
    requires '.' !in file || (|file| > 0 && file[0] == '.' && '.' !in file[1..])
    ensures Extension(file) == None
    ensures Stem(file) == file
  {
    if '.' in file {
      LastDotAt(file, 0);
    }
  }

  /** Rust's `u8::to_ascii_lowercase` lifted to characters: only 'A'..'Z' change. */
  function AsciiLower(c: char): char {
    if 'A' <= c <= 'Z' then (c as int + 32) as char else c
  }

  /** `OsStr::eq_ignore_ascii_case`. */
  predicate EqIgnoreAsciiCase(a: string, b: string) {
    |a| == |b| && forall i :: 0 <= i < |a| ==> AsciiLower(a[i]) == AsciiLower(b[i])
  }

  /** Which spellings of an extension match "heic": exactly the sixteen upper/lower-case mixes. */
  lemma HeicSpellings(e: string)
    ensures EqIgnoreAsciiCase(e, "heic") <==>
      && |e| == 4
      && (e[0] == 'h' || e[0] == 'H')
      && (e[1] == 'e' || e[1] == 'E')
      && (e[2] == 'i' || e[2] == 'I')
      && (e[3] == 'c' || e[3] == 'C')
  {
    if |e| == 4 && EqIgnoreAsciiCase(e, "heic") {
      assert AsciiLower(e[0]) == 'h';
      assert AsciiLower(e[1]) == 'e';
      assert AsciiLower(e[2]) == 'i';
      assert AsciiLower(e[3]) == 'c';
    }
  }

  /** `Path::file_name`: the last component when it is a normal one. */
  function FileName(p: Path): (r: Option<string>)
    ensures ValidPath(p) && r.Some? ==> IsName(r.value)
  {
    if |p| > 0 && p[|p| - 1].Normal? then Some(p[|p| - 1].name) else None
  }

  /**
   * `PathBuf::join` of a relative segment without separators, seen through `components`:
   * an empty or "." segment adds nothing (except that "." on its own is the current directory),
   * ".." adds a parent component, and any other segment adds a normal component.
   */
  function Join(p: Path, segment: string): (r: Path)
    requires '/' !in segment
    ensures |p| <= |r| <= |p| + 1
    ensures r[..|p|] == p
    ensures IsName(segment) ==> |r| == |p| + 1 && FileName(r) == Some(segment)
    ensures segment == ".." ==> r == p + [ParentDir] && FileName(r).None?
    ensures (segment == "" || segment == ".") && p != [] ==> r == p
  {
    if segment == "" then p
    else if segment == "." then (if p == [] then [CurDir] else p)
    else if segment == ".." then p + [ParentDir]
    else p + [Normal(segment)]
  }

  /**
   * `Path::with_extension` for a non-empty extension: the file name is cut back to its stem and
   * "." plus the extension appended; a path without a file name is returned unchanged.
   */
  function WithExtension(p: Path, ext: string): (r: Path)
    requires ext != "" && '/' !in ext
    ensures |r| == |p|
    ensures |p| > 0 ==> r[..|p| - 1] == p[..|p| - 1]
    ensures FileName(p).None? ==> r == p
    ensures FileName(p).Some? ==> FileName(r) == Some(Stem(FileName(p).value) + "." + ext)
  {
    match FileName(p)
    case None => p
    case Some(file) => p[..|p| - 1] + [Normal(Stem(file) + "." + ext)]
  }

  /** After `with_extension(ext)` the path's extension is `ext` and its stem is what it was. */
  lemma WithExtensionRoundTrip(p: Path, ext: string)
    requires ext != "" && '/' !in ext && '.' !in ext
    requires FileName(p).Some? && FileName(p).value != ""
    ensures FileName(WithExtension(p, ext)).Some?
    ensures Extension(FileName(WithExtension(p, ext)).value) == Some(ext)
    ensures Stem(FileName(WithExtension(p, ext)).value) == Stem(FileName(p).value)
  {
    var stem := Stem(FileName(p).value);
    SplitIsExtension(stem + "." + ext, stem, ext);
  }
}
