/**
 * Paths as the directory walk sees them: a path is the list of its components,
 * and each component is an operating-system name that may or may not be valid
 * UTF-8 (`OsStr` in Rust).
 */
module Paths {
  import opened Wrappers

  /** One path component. A name that is not valid UTF-8 is known only through
      its lossy rendering, in which every invalid sequence has become U+FFFD.
      The type also admits values no filesystem produces (an empty name, one
      holding `/`, a `NonUtf8` rendering without U+FFFD); they lie outside
      the modelled filesystem, and every lemma holds of them as well. */
  datatype OsName = Utf8(text: string) | NonUtf8(lossy: string)

  /** A path, component by component. */
  type Path = seq<OsName>

  /** The reserved name of version-control metadata. */
  const GitDir: OsName := Utf8(".git")

  /** `OsStr::to_str`: the name as text, when it is valid UTF-8. */
  function ToStr(n: OsName): (r: Option<string>)
    ensures r.Some? <==> n.Utf8?
    ensures r.Some? ==> r.value == n.text
  {
    match n
    case Utf8(t) => Some(t)
    case NonUtf8(_) => None
  }

  /** `OsStr::to_string_lossy` for one component. */
  function Lossy(n: OsName): string {
    match n
    case Utf8(t) => t
    case NonUtf8(l) => l
  }

  /** `Path::to_string_lossy`: the components joined by the separator `/`. */
  function Display(p: Path): string
  {
    if |p| == 0 then ""
    else if |p| == 1 then Lossy(p[0])
    else Display(p[..|p| - 1]) + "/" + Lossy(p[|p| - 1])
  }

  /** `Path::strip_prefix`: what follows `base` in `p`, when `base` is a
      leading run of `p`'s components. */
  function StripPrefix(p: Path, base: Path): (r: Option<Path>)
    ensures r.Some? <==> base <= p
    ensures r.Some? ==> base + r.value == p
  {
    if base <= p then Some(p[|base|..]) else None
  }

  /** `p.strip_prefix(root).unwrap_or(p)`: `p` relative to `root`, or `p`
      itself when `root` is not a prefix of it. */
  function RelativeTo(p: Path, root: Path): Path {
    StripPrefix(p, root).UnwrapOr(p)
  }

  /** `Path::ends_with` with a one-component argument: the last component is `n`. */
  predicate EndsWith(p: Path, n: OsName) {
    |p| > 0 && p[|p| - 1] == n
  }

  /** A path below `root` is taken relative to `root` without falling back:
      the relative path is exactly the components after `root`. */
  lemma RelativeToBelowRoot(root: Path, rel: Path)
    ensures StripPrefix(root + rel, root) == Some(rel)
    ensures RelativeTo(root + rel, root) == rel
  {
    assert (root + rel)[|root|..] == rel;
  }

  /** Appending one component to a non-empty path appends the separator and
      that component's rendering. */
  lemma DisplayAppend(p: Path, n: OsName)
    requires |p| > 0
    ensures Display(p + [n]) == Display(p) + "/" + Lossy(n)
  {
    assert (p + [n])[..|p|] == p;
  }
}
