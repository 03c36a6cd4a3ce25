/**
  `std::path::PathBuf`, reduced to what the services use: whether the path is
  absolute and its normal components. Prefix, `.` and `..` components and
  platform-specific separators are not modelled.
 */
module Paths {
  import opened Wrappers

  datatype Path = Path(absolute: bool, parts: seq<string>)

  /** `io::Error`, reduced to the kinds the services distinguish. */
  datatype IoError = NotFound | DirectoryNotEmpty | OtherIo(reason: string)

  /** A relative path of one component, the result of `PathBuf::from("name")`. */
  function Relative(name: string): Path {
    Path(false, [name])
  }

  /**
    `base.join(p)`: an absolute `p` replaces `base`, a relative one is
    appended to it.
   */
  function Join(base: Path, p: Path): (r: Path)
    ensures p.absolute ==> r == p
    ensures !p.absolute ==> r.absolute == base.absolute && |r.parts| == |base.parts| + |p.parts|
    ensures !p.absolute ==> r.parts[..|base.parts|] == base.parts && r.parts[|base.parts|..] == p.parts
  {
    if p.absolute then p else Path(base.absolute, base.parts + p.parts)
  }

  /** `path.strip_prefix(base).is_ok()`: `base`'s components start `path`'s. */
  predicate HasPrefix(path: Path, base: Path) {
    path.absolute == base.absolute && base.parts <= path.parts
  }

  /** `path.strip_prefix(base)`: the remaining relative path, when `base` is a prefix. */
  function StripPrefix(path: Path, base: Path): (r: Option<Path>)
    ensures r.Some? <==> HasPrefix(path, base)
    ensures r.Some? ==> !r.value.absolute && Join(base, r.value) == path
  {
    if HasPrefix(path, base) then Some(Path(false, path.parts[|base.parts|..])) else None
  }

  /** Index of the last `.` in `name`, if any. */
  function LastDot(name: string): (r: Option<nat>)
    ensures r.Some? ==> r.value < |name| && name[r.value] == '.'
    ensures r.Some? ==> forall k :: r.value < k < |name| ==> name[k] != '.'
    ensures r.None? ==> forall k :: 0 <= k < |name| ==> name[k] != '.'
  {
    if name == [] then None
    else if name[|name| - 1] == '.' then Some(|name| - 1)
    else LastDot(name[..|name| - 1])
  }

  /**
    `path.extension()`: the text after the last `.` of the final component,
    unless that component has no `.` or its only `.` is the leading one, or
    the component is `..`.
   */
  function Extension(path: Path): (r: Option<string>)
    ensures r.Some? ==> |path.parts| > 0
    ensures r.Some? ==> var name := path.parts[|path.parts| - 1];
      |r.value| < |name| && name[|name| - |r.value|..] == r.value && name[|name| - |r.value| - 1] == '.'
      && (forall k :: |name| - |r.value| <= k < |name| ==> name[k] != '.')
      && |name| - |r.value| - 1 > 0
  {
    if path.parts == [] then None
    else
      var name := path.parts[|path.parts| - 1];
      if name == ".." then None
      else match LastDot(name)
        case None => None
        case Some(k) => if k == 0 then None else Some(name[k + 1..])
  }

  /** `path.extension().is_some_and(|e| e == "typ")`. */
  predicate IsTypst(path: Path) {
    Extension(path) == Some("typ")
  }

  /** The example `notes/a.typ` has the `typ` extension; `notes/.typ` has none. */
  lemma ExtensionExamples()
    ensures IsTypst(Path(false, ["notes", "a.typ"]))
    ensures !IsTypst(Path(false, ["notes", ".typ"]))
    ensures Extension(Path(false, ["a.b.typ"])) == Some("typ")
  {
    assert "a.typ"[1] == '.' && "a.typ"[1..] == ".typ" && "a.typ"[2..] == "typ";
    assert ".typ"[0] == '.';
    assert "a.b.typ"[3] == '.' && "a.b.typ"[4..] == "typ";
  }
}
