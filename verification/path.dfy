/**
 * Path helpers over `/` and `\` separators: `dirname`, `basename` and
 * `joinSimple`.
 *
 * The reference functions `DirnameOf` and `BasenameOf` say what the result
 * is in terms of the path with its trailing separators stripped and the
 * position of its last separator; the methods follow the source's loops and
 * searches and are proved to agree with them.
 */
module Paths {
  import opened Types
  import opened Arenas
  import opened Slices
  import SliceUtils
  import Seqs

  predicate IsSeparator(c: char)
  {
    c == '/' || c == '\\'
  }

  /** The path without its trailing separators: the longest prefix not ending in one. */
  function Stripped(p: seq<char>): (s: seq<char>)
    ensures |s| <= |p| && s == p[..|s|]
    ensures |s| > 0 ==> !IsSeparator(s[|s| - 1])
  {
    if |p| > 0 && IsSeparator(p[|p| - 1]) then Stripped(p[..|p| - 1]) else p
  }

  /** Only separators are stripped. */
  lemma {:induction false} StrippedDropsSeparators(p: seq<char>)
    ensures forall i :: |Stripped(p)| <= i < |p| ==> IsSeparator(p[i])
  {
    if |p| > 0 && IsSeparator(p[|p| - 1]) {
      StrippedDropsSeparators(p[..|p| - 1]);
    }
  }

  /** The index of the last separator of `s`, if it has one. */
  function LastSeparator(s: seq<char>): (r: Option<nat>)
    ensures r.Some? ==> r.value < |s| && IsSeparator(s[r.value])
  {
    if |s| == 0 then None
    else if IsSeparator(s[|s| - 1]) then Some(|s| - 1)
    else LastSeparator(s[..|s| - 1])
  }

  /** The separator found is the last one, and none is found only when there is none. */
  lemma {:induction false} LastSeparatorIsLast(s: seq<char>)
    ensures LastSeparator(s).Some? ==> forall j :: LastSeparator(s).value < j < |s| ==> !IsSeparator(s[j])
    ensures LastSeparator(s).None? <==> forall j :: 0 <= j < |s| ==> !IsSeparator(s[j])
  {
    if |s| > 0 && !IsSeparator(s[|s| - 1]) {
      LastSeparatorIsLast(s[..|s| - 1]);
    }
  }

  /**
   * What `dirname` means: "." for a path that is empty or all separators, or
   * that has no separator once stripped; "/" when the last separator is the
   * first character; otherwise everything before the last separator.
   */
  function DirnameOf(p: seq<char>): seq<char>
  {
    var s := Stripped(p);
    if |s| == 0 then "."
    else match LastSeparator(s)
      case None => "."
      case Some(k) => if k == 0 then "/" else s[..k]
  }

  /**
   * What `basename` means: empty for a path that is empty or all
   * separators; otherwise the stripped path after its last separator.
   */
  function BasenameOf(p: seq<char>): seq<char>
  {
    var s := Stripped(p);
    match LastSeparator(s)
    case None => s
    case Some(k) => s[k + 1..]
  }

  /** A basename never contains a separator. */
  lemma BasenameHasNoSeparator(p: seq<char>)
    ensures forall i :: 0 <= i < |BasenameOf(p)| ==> !IsSeparator(BasenameOf(p)[i])
  {
    LastSeparatorIsLast(Stripped(p));
  }

  /** A basename is empty only for a path that is empty or all separators. */
  lemma BasenameEmpty(p: seq<char>)
    ensures |BasenameOf(p)| == 0 <==> forall i :: 0 <= i < |p| ==> IsSeparator(p[i])
  {
    var s := Stripped(p);
    StrippedDropsSeparators(p);
    LastSeparatorIsLast(s);
    if |s| > 0 {
      assert p[|s| - 1] == s[|s| - 1];
    }
  }

  /**
   * When the last separator is not the first character, the directory, that
   * separator and the basename put together give back the stripped path.
   */
  lemma DirnameBasenameSplit(p: seq<char>, s: seq<char>, k: nat)
    requires s == Stripped(p) && LastSeparator(s) == Some(k) && k > 0
    ensures DirnameOf(p) + [s[k]] + BasenameOf(p) == s
  {
    assert DirnameOf(p) == s[..k];
    assert BasenameOf(p) == s[k + 1..];
    Seqs.TakeDrop(s, k);
    assert s[k..] == [s[k]] + s[k + 1..];
  }

  /** The strip loop of both functions: drops trailing separators. */
  method StripTrailing(path: Slice<char>) returns (r: Slice<char>)
    ensures r.data == path.data && r.elems == Stripped(path.elems)
  {
    var n: nat := |path.elems|;
    assert path.elems[..n] == path.elems;
    while n > 0 && IsSeparator(path.elems[n - 1])
      invariant n <= |path.elems| && Stripped(path.elems[..n]) == Stripped(path.elems)
    {
      assert path.elems[..n][..n - 1] == path.elems[..n - 1];
      n := n - 1;
    }
    if n == |path.elems| {
      assert path.elems[..n] == path.elems;
    }
    r := Slice(path.data, path.elems[..n]);
  }

  /**
   * The two `lastIndexOf` searches and the choice between them: the later
   * of the two hits, which is the last separator.
   */
  method FindLastSeparator(s: Slice<char>) returns (found: bool, idx: u32)
    requires s.Valid()
    ensures found <==> LastSeparator(s.elems).Some?
    ensures found ==> idx == LastSeparator(s.elems).value
  {
    var hasFwd, idxFwd := LastIndexOf(s, '/', 0);
    var hasBack, idxBack := LastIndexOf(s, '\\', 0);
    if !hasFwd && !hasBack {
      LastSeparatorIsLast(s.elems);
      return false, 0;
    }
    if hasFwd && hasBack {
      idx := if idxFwd > idxBack then idxFwd else idxBack;
    } else if hasFwd {
      idx := idxFwd;
    } else {
      idx := idxBack;
    }
    found := true;
    LastSeparatorIsLast(s.elems);
    var k := LastSeparator(s.elems).value;
    assert s.elems[k] == '/' || s.elems[k] == '\\';
  }

  /**
   * `dirname`. `dot` and `slash` are the addresses of the static strings
   * "." and "/" it returns; any other result views the path's own data.
   */
  method Dirname(path: Slice<char>, dot: Ptr, slash: Ptr) returns (r: Slice<char>)
    requires path.Valid()
    ensures r.elems == DirnameOf(path.elems)
    ensures r.data == dot || r.data == slash || r.data == path.data
  {
    var s := StripTrailing(path);
    if |s.elems| == 0 {
      return Slice(dot, ".");
    }
    var found, idx := FindLastSeparator(s);
    if !found {
      return Slice(dot, ".");
    }
    if idx == 0 {
      return Slice(slash, "/");
    }
    r := Slice(path.data, s.elems[..idx]);
  }

  /** `basename`: the null slice when nothing but separators remain. */
  method Basename(path: Slice<char>) returns (r: Slice<char>)
    requires path.Valid()
    ensures r.elems == BasenameOf(path.elems)
    ensures r.Empty() ==> r == NullSlice()
    ensures !r.Empty() ==> (r.data.Null? <==> path.data.Null?)
  {
    var s := StripTrailing(path);
    if |s.elems| == 0 {
      return NullSlice();
    }
    var found, idx := FindLastSeparator(s);
    if !found {
      return s;
    }
    r := SubarrayFrom(s, idx + 1);
  }

  /** `joinSimple` inserts "/" unless the first segment already ends in a separator. */
  predicate NeedsSeparator(seg0: seq<char>)
  {
    |seg0| > 0 && !IsSeparator(seg0[|seg0| - 1])
  }

  /** What `joinSimple` builds. */
  function Joined(seg0: seq<char>, seg1: seq<char>): seq<char>
  {
    seg0 + (if NeedsSeparator(seg0) then "/" else "") + seg1
  }

  /** The layout of `char`: one byte, byte-aligned. */
  const CHAR: Layout := Layout(1, 0)

  /**
   * `joinSimple`: empty when both segments are; the second segment alone
   * when the first is empty; otherwise the segments joined by at most one
   * inserted "/". The block comes from `allocNZ<char>` (prior contents
   * `stale`); `None` is the out-of-memory path. A total length that
   * overflows `u32` would write outside the block, so it is excluded.
   */
  method JoinSimple(arena: Arena, seg0: Slice<char>, seg1: Slice<char>, stale: seq<char>)
    returns (r: Option<(Arena, Slice<char>)>)
    requires arena.Valid()
    requires SliceUtils.Readable(seg0) && SliceUtils.Readable(seg1)
    requires |Joined(seg0.elems, seg1.elems)| < U32_LIMIT
    requires |stale| == |Joined(seg0.elems, seg1.elems)|
    ensures |Joined(seg0.elems, seg1.elems)| == 0 ==> r == Some((arena, NullSlice()))
    ensures |Joined(seg0.elems, seg1.elems)| > 0 ==>
      (r.Some? <==> SliceUtils.CarveFor(arena, CHAR, |Joined(seg0.elems, seg1.elems)|).Carved?)
    ensures r.Some? ==> r.value.1.elems == Joined(seg0.elems, seg1.elems)
  {
    if |seg0.elems| == 0 {
      if |seg1.elems| == 0 {
        return Some((arena, NullSlice()));
      }
      var c := SliceUtils.CarveFor(arena, CHAR, |seg1.elems|);
      if c.OutOfMemory? {
        return None;
      }
      var ret := Slice(Addr(c.start), stale);
      ret := Slices.Copy(ret, seg1);
      assert ret.elems == ret.elems[..|seg1.elems|];
      return Some((c.arena, ret));
    }
    var last := seg0.elems[|seg0.elems| - 1];
    var needSeparator := last != '/' && last != '\\';
    var lenRet: u32 := |seg0.elems| + (if needSeparator then 1 else 0) + |seg1.elems|;
    var c := SliceUtils.CarveFor(arena, CHAR, lenRet);
    if c.OutOfMemory? {
      return None;
    }
    var ret := Slice(Addr(c.start), stale);
    var seg0Out := Subarray(ret, 0, |seg0.elems|);
    var seg1Out, at1;
    if needSeparator {
      seg1Out := SubarrayFrom(ret, |seg0.elems| + 1);
      at1 := |seg0.elems| + 1;
      ret := ret.(elems := ret.elems[|seg0.elems| := '/']);
    } else {
      seg1Out := SubarrayFrom(ret, |seg0.elems|);
      at1 := |seg0.elems|;
    }
    seg0Out := Slices.Copy(seg0Out, seg0);
    ret := SliceUtils.WriteThrough(ret, 0, seg0Out);
    seg1Out := Slices.Copy(seg1Out, seg1);
    ret := SliceUtils.WriteThrough(ret, at1, seg1Out);
    assert ret.elems == Joined(seg0.elems, seg1.elems);
    r := Some((c.arena, ret));
  }

  /** A separator at the end of `a` is the last one of `a + b` when `b` has none. */
  lemma {:induction false} LastSeparatorAfter(a: seq<char>, b: seq<char>)
    requires |a| > 0 && IsSeparator(a[|a| - 1])
    requires forall i :: 0 <= i < |b| ==> !IsSeparator(b[i])
    ensures LastSeparator(a + b) == Some(|a| - 1)
  {
    if |b| > 0 {
      assert (a + b)[..|a + b| - 1] == a + b[..|b| - 1];
      LastSeparatorAfter(a, b[..|b| - 1]);
    } else {
      assert a + b == a;
    }
  }

  /**
   * Joining a directory that does not end in a separator with a plain file
   * name inverts `dirname`/`basename`: the two pieces come back out.
   */
  lemma JoinSplits(dir: seq<char>, name: seq<char>)
    requires |dir| > 0 && !IsSeparator(dir[|dir| - 1])
    requires |name| > 0 && forall i :: 0 <= i < |name| ==> !IsSeparator(name[i])
    ensures DirnameOf(Joined(dir, name)) == dir
    ensures BasenameOf(Joined(dir, name)) == name
  {
    var j := Joined(dir, name);
    assert j == (dir + "/") + name;
    assert Stripped(j) == j;
    LastSeparatorAfter(dir + "/", name);
    assert j[..|dir|] == dir;
    assert j[|dir| + 1..] == name;
  }

  /** A path without separators is its own basename and has directory ".". */
  lemma PlainName(p: seq<char>)
    requires forall j :: 0 <= j < |p| ==> !IsSeparator(p[j])
    ensures DirnameOf(p) == "." && BasenameOf(p) == p
  {
  }

  /**
   * For a path not ending in a separator whose last separator is at `k`,
   * the directory is the text before `k` ("/" if that is empty) and the
   * basename the text after it.
   */
  lemma SplitAt(p: seq<char>, k: nat)
    requires |p| > 0 && !IsSeparator(p[|p| - 1])
    requires k < |p| && IsSeparator(p[k])
    requires forall j :: k < j < |p| ==> !IsSeparator(p[j])
    ensures DirnameOf(p) == if k == 0 then "/" else p[..k]
    ensures BasenameOf(p) == p[k + 1..]
  {
    assert Stripped(p) == p;
    LastSeparatorIsLast(p);
    assert LastSeparator(p) == Some(k);
  }

  /** Trailing separators do not matter to either function. */
  lemma TrailingSeparator(p: seq<char>)
    requires |p| > 0 && IsSeparator(p[|p| - 1])
    ensures DirnameOf(p) == DirnameOf(p[..|p| - 1])
    ensures BasenameOf(p) == BasenameOf(p[..|p| - 1])
  {
  }

  /** The unit tests on paths with a file name after a separator. */
  lemma UnitTestsWithSeparator(a: seq<char>, b: seq<char>, c: seq<char>, e: seq<char>)
    requires a == "dir/file" && b == "/file" && c == "./file" && e == "/dir/asd/file"
    ensures DirnameOf(a) == "dir" && BasenameOf(a) == "file"
    ensures DirnameOf(b) == "/" && BasenameOf(b) == "file"
    ensures DirnameOf(c) == "." && BasenameOf(c) == "file"
    ensures DirnameOf(e) == "/dir/asd" && BasenameOf(e) == "file"
  {
    SplitAt(a, 3);
    SplitAt(b, 0);
    SplitAt(c, 1);
    SplitAt(e, 8);
  }

  /** The unit tests on a bare name, the empty path and a trailing separator. */
  lemma UnitTestsEdgeCases(d: seq<char>, f: seq<char>)
    requires d == "file" && f == "/dir/asd/"
    ensures DirnameOf(d) == "." && BasenameOf(d) == "file"
    ensures DirnameOf([]) == "." && BasenameOf([]) == []
    ensures DirnameOf(f) == "/dir" && BasenameOf(f) == "asd"
  {
    PlainName(d);
    PlainName([]);
    TrailingSeparator(f);
    var g := f[..8];
    assert g == "/dir/asd";
    SplitAt(g, 4);
  }
}
