/**
 * `pathlib` paths as the harness uses them: an anchor (`"/"`, `"C:/"`, or
 * `""` for a relative path) and the list of segment names below it, always
 * already `resolve()`d by the caller.
 */
module Paths {
  import opened Wrappers
  import opened Text

  datatype Path = Path(anchor: string, parts: seq<string>)

  /** `base / name`. */
  function Child(base: Path, name: string): (r: Path)
    ensures r.anchor == base.anchor && r.parts == base.parts + [name]
  {
    Path(base.anchor, base.parts + [name])
  }

  /** `path.name`: the last segment, `""` for an anchor alone. */
  function Name(p: Path): (r: string)
    ensures p.parts == [] ==> r == []
    ensures p.parts != [] ==> r == p.parts[|p.parts| - 1]
  {
    if p.parts == [] then [] else p.parts[|p.parts| - 1]
  }

  predicate IsPrefix(a: seq<string>, b: seq<string>) {
    |a| <= |b| && b[..|a|] == a
  }

  /** `path.relative_to(base)`; `None` where Python raises `ValueError`. */
  function RelativeTo(p: Path, base: Path): (r: Option<Path>)
    ensures r.Some? <==> p.anchor == base.anchor && IsPrefix(base.parts, p.parts)
    ensures r.Some? ==> r.value.anchor == [] && base.parts + r.value.parts == p.parts
  {
    if p.anchor == base.anchor && IsPrefix(base.parts, p.parts)
    then
      var rest := p.parts[|base.parts|..];
      assert base.parts + rest == p.parts;
      Some(Path([], rest))
    else None
  }

  /** `_is_within(base, target)` (both scripts): `target.relative_to(base)` succeeds. */
  predicate IsWithin(base: Path, target: Path): (b: bool)
    ensures b <==> target.anchor == base.anchor && IsPrefix(base.parts, target.parts)
  {
    RelativeTo(target, base).Some?
  }

  /** `path.as_posix()`: `.` for the empty relative path. */
  function AsPosix(p: Path): string {
    if p.anchor == [] && p.parts == [] then "."
    else if p.parts == [] then p.anchor
    else p.anchor + Join(p.parts, '/')
  }

  /** `as_posix_relative(path, base)`: the POSIX form relative to `base`, or of `path` itself. */
  function AsPosixRelative(p: Path, base: Path): (r: string)
    ensures IsWithin(base, p) ==> r == AsPosix(RelativeTo(p, base).value)
    ensures !IsWithin(base, p) ==> r == AsPosix(p)
  {
    match RelativeTo(p, base)
    case Some(rel) => AsPosix(rel)
    case None => AsPosix(p)
  }

  /** Every path lies within itself, and relative to itself it is `.`. */
  lemma WithinSelf(p: Path)
    ensures IsWithin(p, p)
    ensures AsPosixRelative(p, p) == "."
  {
    assert p.parts[|p.parts|..] == [];
  }

  /** Descending below a path stays within it, whatever the names. */
  lemma WithinTransitive(a: Path, b: Path, c: Path)
    requires IsWithin(a, b) && IsWithin(b, c)
    ensures IsWithin(a, c)
  {
    assert c.parts[..|a.parts|] == b.parts[..|a.parts|];
  }

  lemma ChildWithin(base: Path, name: string)
    ensures IsWithin(base, Child(base, name))
  {
    assert (base.parts + [name])[..|base.parts|] == base.parts;
  }

  /**
   * A path below `base` reached by the segments `rel` prints, relative to
   * `base`, as those segments joined by `/`.
   */
  lemma RelativeRendering(base: Path, rel: seq<string>)
    requires rel != []
    ensures AsPosixRelative(Path(base.anchor, base.parts + rel), base) == Join(rel, '/')
  {
    var p := Path(base.anchor, base.parts + rel);
    assert p.parts[..|base.parts|] == base.parts;
    assert p.parts[|base.parts|..] == rel;
  }
}
