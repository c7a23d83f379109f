/** The part of pathlib's behaviour the index store relies on: how `base / name`
    splits a name into parts, and how `with_suffix` renames a file. */
module Paths {

  /** A path as the sequence of its parts below the file-system anchor
      (pathlib's `parts` without the leading "/"). */
  type Path = seq<string>

  /** Position of the first '/' in `s`, or `|s|` when there is none. */
  function SlashIndex(s: string): (i: nat)
    ensures i <= |s|
    ensures i < |s| ==> s[i] == '/'
    ensures forall j :: 0 <= j < i ==> s[j] != '/'
  {
    if s == [] || s[0] == '/' then 0 else 1 + SlashIndex(s[1..])
  }

  /** `s.split('/')`: the pieces between slashes, empty pieces included. */
  function Split(s: string): (pieces: seq<string>)
    ensures |pieces| >= 1
    ensures forall k :: 0 <= k < |pieces| ==> '/' !in pieces[k]
    decreases |s|
  {
    var i := SlashIndex(s);
    if i == |s| then [s] else [s[..i]] + Split(s[i + 1..])
  }

  /** `'/'.join(pieces)`: the reference against which Split is checked. */
  function Unsplit(pieces: seq<string>): string
  {
    if pieces == [] then ""
    else if |pieces| == 1 then pieces[0]
    else pieces[0] + "/" + Unsplit(pieces[1..])
  }

  /** Splitting at the slashes loses nothing: joining the pieces gives the name back. */
  lemma {:induction false} UnsplitSplit(s: string)
    ensures Unsplit(Split(s)) == s
    decreases |s|
  {
    var i := SlashIndex(s);
    if i < |s| {
      var rest := Split(s[i + 1..]);
      assert Split(s) == [s[..i]] + rest;
      assert Unsplit([s[..i]] + rest) == s[..i] + "/" + Unsplit(rest);
      UnsplitSplit(s[i + 1..]);
      assert s == s[..i] + "/" + s[i + 1..];
    }
  }

  /** Split takes the name apart at its first slash. */
  lemma SplitAtSlash(s: string, i: nat)
    requires i < |s| && s[i] == '/' && '/' !in s[..i]
    ensures Split(s) == [s[..i]] + Split(s[i + 1..])
  {
    assert forall j :: 0 <= j < i ==> s[j] != '/' by {
      forall j | 0 <= j < i ensures s[j] != '/' {
        assert s[..i][j] == s[j];
      }
    }
    assert SlashIndex(s) == i;
  }

  /** The pieces pathlib keeps: it drops the empty ones (left by doubled or
      trailing slashes) and the "." ones. */
  function Clean(pieces: seq<string>): (parts: seq<string>)
    ensures forall k :: 0 <= k < |parts| ==> parts[k] != "" && parts[k] != "." && parts[k] in pieces
    ensures forall x :: x in pieces && x != "" && x != "." ==> x in parts
    ensures |parts| <= |pieces|
  {
    if pieces == [] then []
    else if pieces[0] == "" || pieces[0] == "." then Clean(pieces[1..])
    else [pieces[0]] + Clean(pieces[1..])
  }

  /** Cleaning keeps the order of the pieces: the kept pieces of `a + b` are
      those of `a` followed by those of `b`. */
  lemma {:induction false} CleanAppend(a: seq<string>, b: seq<string>)
    ensures Clean(a + b) == Clean(a) + Clean(b)
    decreases |a|
  {
    if a == [] {
      assert a + b == b;
    } else {
      assert (a + b)[0] == a[0];
      assert (a + b)[1..] == a[1..] + b;
      CleanAppend(a[1..], b);
    }
  }

  /** The parts that a relative name contributes to `base / name`. */
  function Parts(name: string): (parts: Path)
    ensures forall k :: 0 <= k < |parts| ==> parts[k] != "" && parts[k] != "." && '/' !in parts[k]
    ensures forall x :: x in Split(name) && x != "" && x != "." ==> x in parts
  {
    Clean(Split(name))
  }

  /** A name without slashes that is neither empty nor "." is one part, as it stands. */
  lemma PartsOfPlainName(name: string)
    requires name != "" && name != "." && '/' !in name
    ensures Parts(name) == [name]
  {
    assert SlashIndex(name) == |name|;
  }

  /** `base / name` for a relative name (one that does not start with '/'). */
  function Join(base: Path, name: string): Path
    requires name == [] || name[0] != '/'
  {
    base + Parts(name)
  }

  /** `q` is `p` itself or lies somewhere below it. */
  predicate Within(p: Path, q: Path)
  {
    |p| <= |q| && q[..|p|] == p
  }

  /** What `p.mkdir(parents=True, exist_ok=True)` makes sure exists: `p` and every directory above it. */
  function Prefixes(p: Path): set<Path>
  {
    set i | 0 < i <= |p| :: p[..i]
  }

  /** Position of the last '.' in `name`, or -1 when there is none. */
  function LastDot(name: string): (i: int)
    ensures -1 <= i < |name|
    ensures 0 <= i ==> name[i] == '.'
    ensures forall j :: i < j < |name| ==> name[j] != '.'
  {
    if name == [] then -1
    else if name[|name| - 1] == '.' then |name| - 1
    else LastDot(name[..|name| - 1])
  }

  /** The last dot of `stem + ext`, when `ext` starts with the only dot it has, is the one opening `ext`. */
  lemma {:induction false} LastDotOfExtension(stem: string, ext: string)
    requires |ext| > 0 && ext[0] == '.'
    requires forall j :: 0 < j < |ext| ==> ext[j] != '.'
    ensures LastDot(stem + ext) == |stem|
    decreases |ext|
  {
    var name := stem + ext;
    if |ext| > 1 {
      var shorter := ext[..|ext| - 1];
      assert name[..|name| - 1] == stem + shorter;
      LastDotOfExtension(stem, shorter);
    }
  }

  /** `PurePath.suffix` of a final part: everything from its last '.', unless
      that dot is the first or the last character, in which case there is none. */
  function Suffix(name: string): (ext: string)
    ensures ext == [] || (ext[0] == '.' && 1 < |ext| < |name| && name[|name| - |ext|..] == ext)
    ensures forall j :: 0 < j < |ext| ==> ext[j] != '.'
    ensures ext != [] <==> 0 < LastDot(name) < |name| - 1
  {
    var i := LastDot(name);
    if 0 < i < |name| - 1 then name[i..] else ""
  }

  /** The suffixes `with_suffix` accepts; it raises ValueError for any other. */
  predicate ValidSuffix(suffix: string)
  {
    '/' !in suffix && (suffix == "" || (suffix[0] == '.' && suffix != "."))
  }

  /** `p.with_suffix(suffix)`: the same directory, the final part with its suffix replaced
      (or the suffix appended when it has none). */
  function WithSuffix(p: Path, suffix: string): (r: Path)
    requires |p| > 0 && p[|p| - 1] != ""
    requires ValidSuffix(suffix)
    ensures |r| == |p| && r[..|p| - 1] == p[..|p| - 1]
    ensures |r[|p| - 1]| >= |suffix| && r[|p| - 1][|r[|p| - 1]| - |suffix|..] == suffix
    ensures r[|p| - 1][..|r[|p| - 1]| - |suffix|] == p[|p| - 1][..|p[|p| - 1]| - |Suffix(p[|p| - 1])|]
  {
    var name := p[|p| - 1];
    var ext := Suffix(name);
    p[..|p| - 1] + [name[..|name| - |ext|] + suffix]
  }
}
