/** The two `os.path` operations the scraper uses to build destinations,
    `splitext` and `join`, as `posixpath` defines them, and the extension an
    archive is saved under. */
module Paths {
  import opened Text
  import opened Parser

  /** Python's `str.rfind` for one character: the last index of `c`, or -1. */
  function RFind(s: string, c: char): (r: int)
    ensures -1 <= r < |s|
    ensures r >= 0 ==> s[r] == c
    ensures forall j :: r < j < |s| ==> s[j] != c
  {
    if s == [] then -1
    else if s[|s| - 1] == c then |s| - 1
    else RFind(s[..|s| - 1], c)
  }

  /** In `p`, `q` is the last dot and `i` a character other than a dot before it,
      with no separator from `i` on: the last path component holds a dot that does
      not belong to its leading dots. */
  predicate DotAfterName(p: string, i: int, q: int) {
    && 0 <= i < q < |p| && p[i] != '.' && p[q] == '.'
    && (forall j :: i <= j < |p| ==> p[j] != '/')
    && (forall j :: q < j < |p| ==> p[j] != '.')
  }

  /** `os.path.splitext`: the extension is the tail from the last dot of the last
      path component, unless everything before that dot in the component is dots
      (a hidden file such as `.rar` has no extension). Root and extension put back
      together give the path; the extension is non-empty exactly when the last
      component has a dot after a character other than a dot, and is then the tail
      from the last dot: one dot followed by no dot and no separator. */
  function SplitExt(p: string): (r: (string, string))
    ensures r.0 + r.1 == p
    ensures r.1 != [] ==> r.1[0] == '.' && '.' !in r.1[1..] && '/' !in r.1
    ensures r.1 != [] <==> exists i, q :: DotAfterName(p, i, q)
    ensures forall i, q :: DotAfterName(p, i, q) ==> r.1 == p[q..]
  {
    var sep := RFind(p, '/');
    var dot := RFind(p, '.');
    DotAfterNameAt(p, sep, dot);
    if dot > sep && exists j :: sep < j < dot && p[j] != '.' then
      assert forall j :: dot < j < |p| ==> p[j] != '.' && p[j] != '/';
      var i :| sep < i < dot && p[i] != '.';
      assert DotAfterName(p, i, dot);
      (p[..dot], p[dot..])
    else
      (p, [])
  }

  /** Any witness of `DotAfterName` has the last dot as its `q` and stands after
      the last separator. */
  lemma DotAfterNameAt(p: string, sep: int, dot: int)
    requires sep == RFind(p, '/') && dot == RFind(p, '.')
    ensures forall i, q :: DotAfterName(p, i, q) ==> q == dot && sep < i < dot && p[i] != '.'
  {
    forall i, q | DotAfterName(p, i, q)
      ensures q == dot && sep < i
    {
      assert q <= dot;
    }
  }

  /** `os.path.join(a, b)`: an absolute `b` replaces `a`; otherwise `b` follows `a`,
      with one separator between them unless `a` is empty or already ends with
      one. Either way the result ends with `b`. */
  function Join(a: string, b: string): (r: string)
    ensures EndsWith(r, b)
    ensures (b == [] || b[0] != '/') ==> |a| <= |r| && r[..|a|] == a
    ensures (b == [] || b[0] != '/') && a != [] && a[|a| - 1] != '/' ==> r == a + "/" + b
    ensures (b == [] || b[0] != '/') && (a == [] || a[|a| - 1] == '/') ==> r == a + b
    ensures b != [] && b[0] == '/' ==> r == b
  {
    if b != [] && b[0] == '/' then b
    else if a == [] || a[|a| - 1] == '/' then a + b
    else a + "/" + b
  }

  /** The extension an archive is saved under: the one `splitext` finds in its name,
      or `.rar` when there is none. Either way it is one dot followed by no dot
      and no separator. */
  function ArchiveExtension(fileName: string): (e: string)
    ensures e != [] && e[0] == '.' && '.' !in e[1..] && '/' !in e
  {
    var e := SplitExt(fileName).1;
    if e == [] then ".rar" else e
  }

  /** A saved archive keeps an archive extension: the extension it is saved under
      is `.rar` or the tail of its own name, and in both cases it is, ignoring case,
      one of those `is_archive` accepts. */
  lemma ArchiveKeepsExtension(fileName: string)
    requires IsArchive(fileName)
    ensures var e := ArchiveExtension(fileName);
            HasArchiveSuffix(ToLower(e)) && (e == ".rar" || EndsWith(fileName, e))
  {
    var e := SplitExt(fileName).1;
    if e == [] {
      assert ToLower(".rar") == ".rar";
    } else {
      SuffixIsExtension(fileName, e, MatchedSuffix(ToLower(fileName)));
    }
  }

  /** One archive extension a lower-cased archive name ends with. */
  function MatchedSuffix(low: string): (suffix: string)
    requires HasArchiveSuffix(low)
    ensures EndsWith(low, suffix) && HasArchiveSuffix(suffix)
    ensures suffix != [] && suffix[0] == '.' && '.' !in suffix[1..]
  {
    if EndsWith(low, ".rar") then ".rar"
    else if EndsWith(low, ".zip") then ".zip"
    else if EndsWith(low, ".7z") then ".7z"
    else if EndsWith(low, ".tar") then ".tar"
    else if EndsWith(low, ".gz") then ".gz"
    else ".bz2"
  }

  /** A plain attachment name, one that starts with something other than a dot and
      holds no separator, keeps its own extension: what it is saved under is the
      `splitext` extension of the name itself, its tail from the last dot, never the
      `.rar` fallback. */
  lemma OwnArchiveExtension(fileName: string)
    requires IsArchive(fileName) && fileName[0] != '.' && '/' !in fileName
    ensures var e := ArchiveExtension(fileName);
            && e == SplitExt(fileName).1 && e != []
            && EndsWith(fileName, e) && e[0] == '.' && '.' !in e[1..]
            && HasArchiveSuffix(ToLower(e))
  {
    var suffix := MatchedSuffix(ToLower(fileName));
    LastDotOfSuffix(fileName, suffix);
    var q := |fileName| - |suffix|;
    assert DotAfterName(fileName, 0, q);
    ArchiveKeepsExtension(fileName);
  }

  /** When the lower-cased name ends with a suffix that is one dot and then no dot,
      a non-empty `splitext` extension of the name is that suffix, up to case. */
  lemma SuffixIsExtension(fileName: string, e: string, suffix: string)
    requires e == SplitExt(fileName).1 && e != []
    requires suffix != [] && suffix[0] == '.' && '.' !in suffix[1..]
    requires EndsWith(ToLower(fileName), suffix)
    ensures ToLower(e) == suffix && EndsWith(fileName, e)
  {
    LastDotOfExtension(fileName);
    LastDotOfSuffix(fileName, suffix);
    assert |e| == |suffix|;
    assert ToLower(e) == ToLower(fileName)[|fileName| - |suffix|..];
  }

  /** A non-empty extension starts at the last dot of the name. */
  lemma LastDotOfExtension(fileName: string)
    requires SplitExt(fileName).1 != []
    ensures var q := |fileName| - |SplitExt(fileName).1|;
            EndsWith(fileName, SplitExt(fileName).1)
            && fileName[q] == '.' && forall j :: q < j < |fileName| ==> fileName[j] != '.'
  {
    var (root, e) := SplitExt(fileName);
    var q := |fileName| - |e|;
    assert fileName == root + e;
    assert fileName[q..] == e;
    forall j | q < j < |fileName| ensures fileName[j] != '.' {
      assert fileName[j] == e[1..][j - q - 1];
    }
  }

  /** Lower-casing keeps dots where they are, so a suffix of one dot and then no dot
      of the lower-cased name marks the last dot of the name. */
  lemma LastDotOfSuffix(fileName: string, suffix: string)
    requires suffix != [] && suffix[0] == '.' && '.' !in suffix[1..]
    requires EndsWith(ToLower(fileName), suffix)
    ensures var r := |fileName| - |suffix|;
            fileName[r] == '.' && forall j :: r < j < |fileName| ==> fileName[j] != '.'
  {
    var low := ToLower(fileName);
    var r := |fileName| - |suffix|;
    assert low[r] == suffix[0];
    forall j | r < j < |fileName| ensures fileName[j] != '.' {
      assert low[j] == suffix[1..][j - r - 1];
    }
  }
}
