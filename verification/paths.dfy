/**
 The parts of Rust's `std::path` and `std::ffi::OsStr` that the organizer relies on,
 modelled by their documented behaviour on Unix. Their implementation is not part of
 this model; every definition here is an assumption about the standard library.
 */
module Paths {
  import opened Wrappers

  /** A byte that cannot belong to any valid UTF-8 encoded character on its own. */
  type InvalidByte = b: int | 0x80 <= b < 0x100 witness 0x80

  /**
   One unit of an OS file name: a character that decodes, or a byte that does not.
   A `.` is ASCII, so it is always a `Ch`.
   */
  datatype OsUnit = Ch(c: char) | Raw(b: InvalidByte)

  /** An `OsString` / `PathBuf`: a sequence of units. */
  type OsString = seq<OsUnit>

  const Dot: OsUnit := Ch('.')

  /** The OS string holding exactly the characters of `s`. */
  function FromStr(s: string): OsString
  {
    if |s| == 0 then [] else [Ch(s[0])] + FromStr(s[1..])
  }

  /** `OsStr::to_str`: the string, if every unit decodes. */
  function ToStr(u: OsString): (r: Option<string>)
    ensures r.Some? <==> forall i :: 0 <= i < |u| ==> u[i].Ch?
    ensures r.Some? ==> FromStr(r.value) == u
  {
    if |u| == 0 then Some("")
    else match u[0]
      case Raw(_) => None
      case Ch(c) =>
        match ToStr(u[1..])
        case None => None
        case Some(t) => Some([c] + t)
  }

  /** Decoding an OS string made of characters gives those characters back. */
  lemma {:induction false} ToStrFromStr(s: string)
    ensures ToStr(FromStr(s)) == Some(s)
  {
    if |s| > 0 {
      ToStrFromStr(s[1..]);
      assert FromStr(s)[1..] == FromStr(s[1..]);
      assert [s[0]] + s[1..] == s;
    }
  }

  /** The position of the last `.` in `s`, if any. */
  function LastDot(s: OsString): (r: Option<nat>)
    ensures r.None? ==> forall i :: 0 <= i < |s| ==> s[i] != Dot
    ensures r.Some? ==> r.value < |s| && s[r.value] == Dot
    ensures r.Some? ==> forall j :: r.value < j < |s| ==> s[j] != Dot
  {
    if |s| == 0 then None
    else if s[|s| - 1] == Dot then Some(|s| - 1)
    else LastDot(s[..|s| - 1])
  }

  /** The file name `..`. */
  const DotDot: OsString := [Dot, Dot]

  /**
   `Path::extension` of an entry whose file name is `name`: the text after the final
   `.`, or nothing when the name has no `.`, when its only `.` is the leading one,
   or when it is `..`.
   */
  function Extension(name: OsString): (r: Option<OsString>)
    ensures r.None? <==> name == DotDot || forall i :: 0 < i < |name| ==> name[i] != Dot
    ensures r.Some? ==> |r.value| + 1 < |name|
    ensures r.Some? ==> name[|name| - |r.value| - 1] == Dot && name[|name| - |r.value|..] == r.value
    ensures r.Some? ==> forall i :: 0 <= i < |r.value| ==> r.value[i] != Dot
  {
    if name == DotDot then None
    else
      match LastDot(name)
      case None => None
      case Some(k) => if k == 0 then None else Some(name[k + 1..])
  }

  /**
   `Path::file_name` of the path `dir/name` of a directory entry: the entry's own
   name, except that a path ending in `..` has none.
   */
  function FileName(name: OsString): (r: Option<OsString>)
    ensures r.Some? <==> name != DotDot
    ensures r.Some? ==> r.value == name
  {
    if name == DotDot then None else Some(name)
  }

  /**
   A path as its sequence of components (`Path::components`); the root of an
   absolute path is its first component.
   */
  type Path = seq<OsString>

  /** `Path::join` of a single relative component (a file or directory name) onto `dir`. */
  function Join(dir: Path, name: OsString): (r: Path)
    ensures dir < r && |r| == |dir| + 1 && r[|dir|] == name
  {
    dir + [name]
  }

  /** Joining onto a fixed directory keeps distinct names distinct. */
  lemma JoinInjective(dir: Path, a: OsString, b: OsString)
    requires Join(dir, a) == Join(dir, b)
    ensures a == b
  {
    assert Join(dir, a)[|dir|] == a;
  }
}
