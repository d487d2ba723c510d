/** POSIX path-string operations as Python's `posixpath` and `str` perform
    them: `join`, `basename`, `strip`, `split` and `sep.join`. Paths are plain
    strings; nothing here looks at a file system. */
module Paths {
  import opened Wrappers

  /** `os.path.sep` on a POSIX system. */
  const Sep: char := '/'

  predicate NoSep(s: string) { forall i :: 0 <= i < |s| ==> s[i] != Sep }

  /** `os.path.join(a, b)`: an absolute `b` replaces `a`; otherwise `b` is
      appended, with a separator inserted unless `a` is empty or already
      ends with one. */
  function Join(a: string, b: string): (r: string)
    ensures |b| <= |r| && r[|r| - |b|..] == b
    ensures |b| > 0 && b[0] == Sep ==> r == b
    ensures (|b| == 0 || b[0] != Sep) ==> |a| <= |r| && r[..|a|] == a
    ensures (|b| == 0 || b[0] != Sep) ==>
              |r| == |a| + |b| + (if |a| == 0 || a[|a| - 1] == Sep then 0 else 1)
    ensures (|b| == 0 || b[0] != Sep) ==>
              var head := r[..|r| - |b|]; |head| == 0 || head[|head| - 1] == Sep
  {
    if |b| > 0 && b[0] == Sep then b
    else if |a| == 0 || a[|a| - 1] == Sep then a + b
    else a + [Sep] + b
  }

  /** `os.path.basename(p)`: everything after the last separator. */
  function Basename(p: string): (r: string)
    ensures NoSep(r)
    ensures |r| <= |p| && p[|p| - |r|..] == r
    ensures |r| < |p| ==> p[|p| - |r| - 1] == Sep
    decreases |p|
  {
    if |p| == 0 || p[|p| - 1] == Sep then ""
    else
      var q := p[..|p| - 1];
      var b := Basename(q);
      assert p[|p| - |b| - 1..] == q[|q| - |b|..] + [p[|p| - 1]];
      b + [p[|p| - 1]]
  }

  /** A name without separators placed after a directory prefix (empty or
      ending in a separator) is that path's basename. */
  lemma {:induction false} BasenameAfterSep(dir: string, name: string)
    requires |dir| == 0 || dir[|dir| - 1] == Sep
    requires NoSep(name)
    ensures Basename(dir + name) == name
    decreases |name|
  {
    if |name| == 0 {
      assert dir + name == dir;
    } else {
      var n' := name[..|name| - 1];
      var p := dir + name;
      assert p[..|p| - 1] == dir + n';
      assert p[|p| - 1] == name[|name| - 1];
      BasenameAfterSep(dir, n');
      assert Basename(p) == Basename(dir + n') + [name[|name| - 1]];
      assert name == n' + [name[|name| - 1]];
    }
  }

  /** `basename(join(dir, name)) == name` for a name without separators. */
  lemma BasenameOfJoin(dir: string, name: string)
    requires NoSep(name)
    ensures Basename(Join(dir, name)) == name
  {
    var r := Join(dir, name);
    var head := r[..|r| - |name|];
    assert r == head + name;
    BasenameAfterSep(head, name);
  }

  /** `s.lstrip(c)`: drop every leading `c`. */
  function StripLeft(s: string, c: char): (r: string)
    ensures |r| <= |s| && r == s[|s| - |r|..]
    ensures forall k :: 0 <= k < |s| - |r| ==> s[k] == c
    ensures |r| == 0 || r[0] != c
    decreases |s|
  {
    if |s| > 0 && s[0] == c then StripLeft(s[1..], c) else s
  }

  /** `s.rstrip(c)`: drop every trailing `c`. */
  function StripRight(s: string, c: char): (r: string)
    ensures |r| <= |s| && r == s[..|r|]
    ensures forall k :: |r| <= k < |s| ==> s[k] == c
    ensures |r| == 0 || r[|r| - 1] != c
    decreases |s|
  {
    if |s| > 0 && s[|s| - 1] == c then StripRight(s[..|s| - 1], c) else s
  }

  /** `s.strip(c)`: `lstrip` then `rstrip`; neither end of the result is `c`. */
  function Strip(s: string, c: char): (r: string)
    ensures |r| == 0 || (r[0] != c && r[|r| - 1] != c)
    ensures |r| <= |s|
  {
    StripRight(StripLeft(s, c), c)
  }

  /** The index of the last `c` in `s`, if any. */
  function LastIndex(s: string, c: char): (r: Option<nat>)
    ensures r.Some? ==> r.value < |s| && s[r.value] == c
    ensures r.Some? ==> forall k :: r.value < k < |s| ==> s[k] != c
    ensures r.None? ==> forall k :: 0 <= k < |s| ==> s[k] != c
    decreases |s|
  {
    if |s| == 0 then None
    else if s[|s| - 1] == c then Some(|s| - 1)
    else LastIndex(s[..|s| - 1], c)
  }

  predicate Excludes(s: string, c: char) { forall k :: 0 <= k < |s| ==> s[k] != c }

  /** `s.split(c)`: the pieces between consecutive `c`s; there is always at
      least one piece, and no piece contains `c`. */
  function Split(s: string, c: char): (r: seq<string>)
    ensures |r| >= 1
    ensures forall i :: 0 <= i < |r| ==> Excludes(r[i], c)
    decreases |s|
  {
    match LastIndex(s, c)
    case None => [s]
    case Some(j) => Split(s[..j], c) + [s[j + 1..]]
  }

  /** `c.join(parts)`. */
  function JoinWith(parts: seq<string>, c: char): string
    decreases |parts|
  {
    if |parts| == 0 then ""
    else if |parts| == 1 then parts[0]
    else JoinWith(parts[..|parts| - 1], c) + [c] + parts[|parts| - 1]
  }

  /** Joining the pieces of a split restores the string. */
  lemma {:induction false} JoinSplit(s: string, c: char)
    ensures JoinWith(Split(s, c), c) == s
    decreases |s|
  {
    match LastIndex(s, c)
    case None =>
    case Some(j) =>
      var front := Split(s[..j], c);
      JoinSplit(s[..j], c);
      assert Split(s, c)[..|Split(s, c)| - 1] == front;
      assert s == s[..j] + [c] + s[j + 1..];
  }

  /** Splitting a join of separator-free pieces gives the pieces back. */
  lemma {:induction false} SplitJoin(parts: seq<string>, c: char)
    requires |parts| >= 1
    requires forall i :: 0 <= i < |parts| ==> Excludes(parts[i], c)
    ensures Split(JoinWith(parts, c), c) == parts
    decreases |parts|
  {
    if |parts| == 1 {
      assert LastIndex(parts[0], c).None?;
    } else {
      var front := parts[..|parts| - 1];
      var last := parts[|parts| - 1];
      var j := JoinWith(front, c);
      var s := j + [c] + last;
      assert JoinWith(parts, c) == s;
      assert s[|j|] == c;
      assert LastIndex(s, c) == Some(|j|);
      assert s[..|j|] == j;
      assert s[|j| + 1..] == last;
      SplitJoin(front, c);
      assert parts == front + [last];
    }
  }

  /** Dropping the last piece of a split and joining the rest gives the
      string up to its last `c`, or nothing when there is no `c`. */
  lemma JoinAllButLast(s: string, c: char)
    ensures var parts := Split(s, c);
            JoinWith(parts[..|parts| - 1], c) ==
              match LastIndex(s, c)
              case None => ""
              case Some(j) => s[..j]
  {
    match LastIndex(s, c)
    case None =>
    case Some(j) =>
      var parts := Split(s, c);
      assert parts[..|parts| - 1] == Split(s[..j], c);
      JoinSplit(s[..j], c);
  }

  /** The basename is what follows the last separator. */
  lemma BasenameIsAfterLastSep(p: string)
    ensures Basename(p) == match LastIndex(p, Sep)
                           case None => p
                           case Some(j) => p[j + 1..]
  {
    var r := Basename(p);
    match LastIndex(p, Sep)
    case None =>
      assert |r| == |p|;
    case Some(j) =>
      assert |r| == |p| - j - 1;
}

  /** Joining a plain name onto an absolute directory that has no doubled
      leading or trailing separator, then stripping the outer separators,
      leaves the directory's text after its leading separator, one separator,
      and the name; that separator is the last one. */
  lemma StripJoin(dir: string, name: string)
    requires |dir| > 1 && dir[0] == Sep && dir[1] != Sep && dir[|dir| - 1] != Sep
    requires |name| > 0 && NoSep(name)
    ensures Strip(Join(dir, name), Sep) == dir[1..] + [Sep] + name
    ensures LastIndex(dir[1..] + [Sep] + name, Sep) == Some(|dir| - 1)
  {
    var p := Join(dir, name);
    var s := dir[1..] + [Sep] + name;
    assert p == dir + [Sep] + name;
    assert p[1..] == s;
    assert StripLeft(p, Sep) == StripLeft(s, Sep);
    assert StripLeft(s, Sep) == s;
    assert s[|s| - 1] == name[|name| - 1];
    assert StripRight(s, Sep) == s;
    var d := |dir| - 1;
    assert s[d] == Sep;
    assert forall k :: d < k < |s| ==> s[k] == name[k - d - 1];
    assert LastIndex(s, Sep).Some?;
  }
}
