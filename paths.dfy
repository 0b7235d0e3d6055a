/**
 * The POSIX path handling that static-file resolution goes through:
 * `path.normalize`, `path.join`, `path.extname`, the removal of leading
 * `../` and `..\` that follows normalisation, and the containment guard.
 *
 * A path is cut into segments at `/` (`Split`, `Join`); normalisation
 * resolves the segments on a stack (`Step`, `ResolveFrom`): empty and `.`
 * segments vanish, `..` pops the last real segment, and when there is none
 * it is kept for a relative path and dropped for an absolute one.
 */
module Paths {
  import opened Text

  /** `s.split('/')` */
  function Split(s: string): (r: seq<string>)
    ensures |r| >= 1
    ensures forall i :: 0 <= i < |r| ==> '/' !in r[i]
    decreases |s|
  {
    if s == [] then [""]
    else
      var t := Split(s[1..]);
      if s[0] == '/' then [""] + t else [[s[0]] + t[0]] + t[1..]
  }

  /** `segs.join('/')` */
  function Join(segs: seq<string>): string
    decreases |segs|
  {
    if segs == [] then ""
    else if |segs| == 1 then segs[0]
    else segs[0] + ("/" + Join(segs[1..]))
  }

  predicate NoSlashes(segs: seq<string>) {
    forall i :: 0 <= i < |segs| ==> '/' !in segs[i]
  }

  /** A segment that names a directory entry: not empty, `.` or `..`. */
  predicate CleanSegment(seg: string) {
    seg != "" && seg != "." && seg != ".." && '/' !in seg
  }

  predicate CleanSegments(segs: seq<string>) {
    forall i :: 0 <= i < |segs| ==> CleanSegment(segs[i])
  }

  /** Every `..` comes before every other segment. */
  predicate DotsFirst(segs: seq<string>) {
    forall i, j :: 0 <= i < j < |segs| && segs[i] != ".." ==> segs[j] != ".."
  }

  predicate NoParent(segs: seq<string>) {
    forall i :: 0 <= i < |segs| ==> segs[i] != ".."
  }

  // ---------------------------------------------------------------------
  // Splitting and joining

  lemma {:induction false} JoinSplit(s: string)
    ensures Join(Split(s)) == s
    decreases |s|
  {
    if s != [] {
      var t := Split(s[1..]);
      JoinSplit(s[1..]);
      if s[0] == '/' {
        JoinAfterEmpty(t);
        assert s == "/" + s[1..];
      } else {
        JoinGlued(s[0], t);
        assert s == [s[0]] + s[1..];
      }
    }
  }

  lemma JoinAfterEmpty(t: seq<string>)
    requires |t| >= 1
    ensures Join([""] + t) == "/" + Join(t)
  {
    assert ([""] + t)[1..] == t;
  }

  lemma JoinGlued(c: char, t: seq<string>)
    requires |t| >= 1
    ensures Join([[c] + t[0]] + t[1..]) == [c] + Join(t)
  {
    var r := [[c] + t[0]] + t[1..];
    if |t| > 1 {
      assert r[1..] == t[1..];
      var rest := "/" + Join(t[1..]);
      assert Join(r) == ([c] + t[0]) + rest;
      assert Join(t) == t[0] + rest;
      ConcatAssoc([c], t[0], rest);
    }
  }

  lemma ConcatAssoc(a: string, b: string, c: string)
    ensures (a + b) + c == a + (b + c)
  {
  }

  /** A slash-free word in front of `s` is glued to the first segment. */
  lemma {:induction false} SplitWordThen(w: string, s: string)
    requires '/' !in w
    ensures Split(w + s) == [w + Split(s)[0]] + Split(s)[1..]
    decreases |w|
  {
    if w != [] {
      SplitWordThen(w[1..], s);
      assert (w + s)[1..] == w[1..] + s;
      assert [w[0]] + (w[1..] + Split(s)[0]) == w + Split(s)[0];
    } else {
      assert w + s == s;
      assert w + Split(s)[0] == Split(s)[0];
      assert [Split(s)[0]] + Split(s)[1..] == Split(s);
    }
  }

  lemma SplitSlash(s: string)
    ensures Split("/" + s) == [""] + Split(s)
  {
    assert ("/" + s)[1..] == s;
  }

  lemma {:induction false} SplitWordSlash(w: string, s: string)
    requires '/' !in w
    ensures Split(w + ("/" + s)) == [w] + Split(s)
  {
    SplitWordThen(w, "/" + s);
    SplitSlash(s);
    assert w + "" == w;
  }

  lemma {:induction false} SplitWord(w: string)
    requires '/' !in w
    ensures Split(w) == [w]
  {
    SplitWordThen(w, "");
    assert w + "" == w;
  }

  /** Joined slash-free segments followed by `/` and `s` split back into the
      same segments followed by the segments of `s`. */
  lemma {:induction false} SplitJoinThen(segs: seq<string>, s: string)
    requires |segs| >= 1 && NoSlashes(segs)
    ensures Split(Join(segs) + ("/" + s)) == segs + Split(s)
    decreases |segs|
  {
    if |segs| == 1 {
      SplitWordSlash(segs[0], s);
    } else {
      var rest := segs[1..];
      var after := Join(rest) + ("/" + s);
      SplitJoinThen(rest, s);
      Regroup(segs[0], "/", Join(rest), "/" + s);
      SplitWordSlash(segs[0], after);
      assert segs == [segs[0]] + rest;
    }
  }

  lemma Regroup(a: string, m: string, b: string, c: string)
    ensures (a + (m + b)) + c == a + (m + (b + c))
  {
  }

  /** Splitting undoes joining. */
  lemma {:induction false} SplitJoin(segs: seq<string>)
    requires |segs| >= 1 && NoSlashes(segs)
    ensures Split(Join(segs)) == segs
    decreases |segs|
  {
    if |segs| == 1 {
      SplitWord(segs[0]);
    } else {
      var rest := segs[1..];
      SplitJoin(rest);
      SplitWordSlash(segs[0], Join(rest));
      assert segs == [segs[0]] + rest;
    }
  }

  /** An absolute path built from slash-free segments splits into an empty
      segment and those segments. */
  lemma SplitAbsolute(segs: seq<string>)
    requires |segs| >= 1 && NoSlashes(segs)
    ensures Split("/" + Join(segs)) == [""] + segs
  {
    SplitSlash(Join(segs));
    SplitJoin(segs);
  }

  /** A join ends with the last character of its last segment. */
  lemma {:induction false} JoinEnds(segs: seq<string>)
    requires |segs| >= 1 && segs[|segs| - 1] != []
    ensures var j := Join(segs); var last := segs[|segs| - 1];
      |j| >= |last| && j[|j| - 1] == last[|last| - 1]
  {
    var last := segs[|segs| - 1];
    if |segs| > 1 {
      var up := segs[..|segs| - 1];
      JoinAppend(up, [last]);
      assert up + [last] == segs;
    }
  }

  lemma {:induction false} JoinAppend(a: seq<string>, b: seq<string>)
    requires |a| >= 1 && |b| >= 1
    ensures Join(a + b) == Join(a) + ("/" + Join(b))
    decreases |a|
  {
    if |a| == 1 {
      assert (a + b)[1..] == b;
    } else {
      JoinAppend(a[1..], b);
      assert (a + b)[1..] == a[1..] + b;
    }
  }

  /** The first segment is the text before the first `/`; when there is no
      `/`, it is the only one. */
  lemma {:induction false} SplitHead(s: string)
    ensures var k := IndexOf(s, '/');
      Split(s)[0] == s[..k] && (k == |s| ==> |Split(s)| == 1)
    decreases |s|
  {
    if s != [] && s[0] != '/' {
      SplitHead(s[1..]);
      assert s[..IndexOf(s, '/')] == [s[0]] + s[1..][..IndexOf(s[1..], '/')];
    }
  }

  // ---------------------------------------------------------------------
  // Resolving segments

  /** One segment of `normalizeString`. */
  function Step(stack: seq<string>, seg: string, absolute: bool): seq<string> {
    if seg == "" || seg == "." then stack
    else if seg == ".." then
      if |stack| > 0 && stack[|stack| - 1] != ".." then stack[..|stack| - 1]
      else if absolute then stack
      else stack + [".."]
    else stack + [seg]
  }

  /** All segments, left to right. */
  function ResolveFrom(stack: seq<string>, segs: seq<string>, absolute: bool): seq<string>
    decreases |segs|
  {
    if segs == [] then stack else ResolveFrom(Step(stack, segs[0], absolute), segs[1..], absolute)
  }

  /** The stacks normalisation builds: real segments and `..`, the `..`
      first, and none of them for an absolute path. */
  predicate StackShape(stack: seq<string>, absolute: bool) {
    && (forall i :: 0 <= i < |stack| ==> stack[i] != "" && stack[i] != "." && '/' !in stack[i])
    && DotsFirst(stack)
    && (absolute ==> NoParent(stack))
  }

  lemma {:induction false} ResolveAppend(stack: seq<string>, a: seq<string>, b: seq<string>, absolute: bool)
    ensures ResolveFrom(stack, a + b, absolute) == ResolveFrom(ResolveFrom(stack, a, absolute), b, absolute)
    decreases |a|
  {
    if a != [] {
      var next := Step(stack, a[0], absolute);
      ResolveAppend(next, a[1..], b, absolute);
      var ab := a + b;
      assert ab[0] == a[0];
      assert ab[1..] == a[1..] + b;
      assert ResolveFrom(stack, ab, absolute) == ResolveFrom(next, a[1..] + b, absolute);
      assert ResolveFrom(stack, a, absolute) == ResolveFrom(next, a[1..], absolute);
    } else {
      assert a + b == b;
    }
  }

  lemma {:induction false} ResolveShape(stack: seq<string>, segs: seq<string>, absolute: bool)
    requires StackShape(stack, absolute) && NoSlashes(segs)
    ensures StackShape(ResolveFrom(stack, segs, absolute), absolute)
    decreases |segs|
  {
    if segs != [] {
      var next := Step(stack, segs[0], absolute);
      assert StackShape(next, absolute) by {
        if segs[0] == ".." && !(|stack| > 0 && stack[|stack| - 1] != "..") && !absolute {
          assert forall i :: 0 <= i < |stack| ==> stack[i] == "..";
        }
      }
      ResolveShape(next, segs[1..], absolute);
    }
  }

  /** At the top of an absolute path, `..` segments are dropped. */
  lemma {:induction false} ResolveParentsAtTop(ups: seq<string>)
    requires forall i :: 0 <= i < |ups| ==> ups[i] == ".."
    ensures ResolveFrom([], ups, true) == []
    decreases |ups|
  {
    if ups != [] {
      ResolveParentsAtTop(ups[1..]);
    }
  }

  /** Clean segments are pushed as they are. */
  lemma {:induction false} ResolveClean(stack: seq<string>, segs: seq<string>, absolute: bool)
    requires CleanSegments(segs)
    ensures ResolveFrom(stack, segs, absolute) == stack + segs
    decreases |segs|
  {
    if segs != [] {
      ResolveClean(stack + [segs[0]], segs[1..], absolute);
      assert stack + [segs[0]] + segs[1..] == stack + segs;
    }
  }

  /** Without `..`, resolution only adds clean segments. */
  lemma {:induction false} ResolveNoParent(stack: seq<string>, segs: seq<string>, absolute: bool)
    requires NoParent(segs) && NoSlashes(segs)
    ensures var r := ResolveFrom(stack, segs, absolute);
      stack <= r && CleanSegments(r[|stack|..])
    decreases |segs|
  {
    if segs != [] {
      var next := Step(stack, segs[0], absolute);
      ResolveNoParent(next, segs[1..], absolute);
      var r := ResolveFrom(stack, segs, absolute);
      assert r[|stack|..] == next[|stack|..] + r[|next|..];
    }
  }

  // ---------------------------------------------------------------------
  // path.normalize, path.join and the strip of leading parents

  /** A resolved absolute path written out. */
  function RenderAbsolute(segs: seq<string>, trailing: bool): string {
    if segs == [] then "/" else "/" + (Join(segs) + (if trailing then "/" else ""))
  }

  /** A resolved relative path written out. */
  function RenderRelative(segs: seq<string>, trailing: bool): string {
    if segs == [] then (if trailing then "./" else ".") else Join(segs) + (if trailing then "/" else "")
  }

  /** `path.normalize` (POSIX). */
  function Normalize(p: string): string {
    if p == [] then "."
    else
      var absolute := p[0] == '/';
      var trailing := p[|p| - 1] == '/';
      var segs := ResolveFrom([], Split(p), absolute);
      if absolute then RenderAbsolute(segs, trailing) else RenderRelative(segs, trailing)
  }

  /** Segments that end in a `/`, split again, give the segments and one
      empty segment. */
  lemma SplitJoinTrailing(segs: seq<string>)
    requires |segs| >= 1 && NoSlashes(segs)
    ensures Split(Join(segs) + "/") == segs + [""]
  {
    var slash := "/" + "";
    assert slash == "/";
    SplitJoinThen(segs, "");
  }

  /** A non-empty resolved stack, written out and split again, keeps every
      `..` first. */
  lemma RenderShape(segs: seq<string>, trailing: bool, absolute: bool)
    requires segs != [] && StackShape(segs, absolute)
    ensures DotsFirst(Split(if absolute then RenderAbsolute(segs, trailing) else RenderRelative(segs, trailing)))
  {
    var body := Join(segs) + (if trailing then "/" else "");
    var tailSegs := segs + (if trailing then [""] else []);
    assert Split(body) == tailSegs by {
      if trailing { SplitJoinTrailing(segs); } else { assert body == Join(segs); SplitJoin(segs); }
    }
    assert DotsFirst(tailSegs);
    if absolute {
      SplitSlash(body);
    }
  }

  /** The renderings of an empty stack. */
  lemma EmptyRenderings()
    ensures Split("/") == ["", ""]
    ensures Split("./") == [".", ""]
    ensures Split(".") == ["."]
  {
    SplitSlash("");
    SplitWordSlash(".", "");
    SplitWord(".");
  }

  /** In a normalised path every `..` comes before every real segment. */
  lemma {:induction false} NormalizeShape(p: string)
    ensures DotsFirst(Split(Normalize(p)))
  {
    if p == [] {
      EmptyRenderings();
    } else {
      var absolute := p[0] == '/';
      var trailing := p[|p| - 1] == '/';
      var segs := ResolveFrom([], Split(p), absolute);
      ResolveShape([], Split(p), absolute);
      if segs == [] {
        EmptyRenderings();
      } else {
        RenderShape(segs, trailing, absolute);
      }
    }
  }

  /** The start `../` or `..\` that the leading-parent strip removes. */
  predicate ParentPrefix(s: string) {
    |s| >= 3 && s[0] == '.' && s[1] == '.' && (s[2] == '/' || s[2] == '\\')
  }

  /** `.replace(/^([.][.][/\\])+/, '')`: removes every leading `../` and
      `..\`; what remains starts with neither, and is a suffix of `s` from
      which only whole `../` and `..\` units were cut. */
  function StripParents(s: string): (r: string)
    ensures !ParentPrefix(r)
    ensures |r| <= |s| && r == s[|s| - |r|..]
    ensures (|s| - |r|) % 3 == 0
    ensures forall k :: 0 <= k < (|s| - |r|) / 3 ==> ParentPrefix(s[3 * k..])
    decreases |s|
  {
    if ParentPrefix(s) then
      var t := s[3..];
      var r := StripParents(t);
      assert s[0..] == s;
      assert forall k :: 1 <= k < (|s| - |r|) / 3 ==> s[3 * k..] == t[3 * (k - 1)..];
      r
    else s
  }

  lemma DotsFirstTail(segs: seq<string>)
    requires DotsFirst(segs) && |segs| >= 1
    ensures DotsFirst(segs[1..])
  {
    assert forall i :: 0 <= i < |segs| - 1 ==> segs[1..][i] == segs[i + 1];
  }

  /** The strip keeps every `..` ahead of every real segment. */
  lemma {:induction false} StripShape(s: string)
    requires DotsFirst(Split(s))
    ensures DotsFirst(Split(StripParents(s)))
    decreases |s|
  {
    if ParentPrefix(s) {
      var rest := s[3..];
      if s[2] == '/' {
        assert s == ".." + ("/" + rest);
        SplitWordSlash("..", rest);
        DotsFirstTail(Split(s));
        assert Split(s)[1..] == Split(rest);
      } else {
        var w := s[..3];
        assert s == w + rest;
        SplitWordThen(w, rest);
        var t := Split(rest);
        assert Split(s)[0] != "..";
        assert forall i :: 1 <= i < |t| ==> t[i] == Split(s)[i];
      }
      StripShape(rest);
    }
  }

  /** What the strip leaves of a normalised path is `..` itself or has no
      `..` segment at all. */
  lemma {:induction false} StrippedCases(q: string)
    requires DotsFirst(Split(q)) && !ParentPrefix(q)
    ensures q == ".." || NoParent(Split(q))
  {
    var segs := Split(q);
    if !NoParent(segs) {
      var i :| 0 <= i < |segs| && segs[i] == "..";
      assert segs[0] == "..";
      SplitHead(q);
      var k := IndexOf(q, '/');
      assert q[..k] == "..";
      assert k == |q|;
    }
  }

  /** The argument list of `path.join(root, p)` glued with `/`; an empty
      `p` is skipped. */
  function JoinedPath(root: string, p: string): string {
    if p == "" then root else root + ("/" + p)
  }

  /** `path.join(root, p)` */
  function JoinPath(root: string, p: string): string {
    Normalize(JoinedPath(root, p))
  }

  // ---------------------------------------------------------------------
  // path.extname

  /** The path without its trailing slashes. */
  function TrimTrailingSlashes(p: string): (r: string)
    ensures |r| <= |p| && r == p[..|r|]
    ensures r == [] || r[|r| - 1] != '/'
    ensures forall k :: |r| <= k < |p| ==> p[k] == '/'
  {
    if p != [] && p[|p| - 1] == '/' then TrimTrailingSlashes(p[..|p| - 1]) else p
  }

  /** The last segment, trailing slashes ignored. */
  function BaseName(p: string): (r: string)
    ensures '/' !in r
  {
    var q := TrimTrailingSlashes(p);
    var k := LastIndexOf(q, '/');
    var r := q[k + 1..];
    assert forall m :: 0 <= m < |r| ==> r[m] == q[k + 1 + m];
    r
  }

  /** The base name is the part of `p`, without its trailing slashes, after
      its last `/`: a suffix that is either all of it or follows a `/`. */
  lemma BaseNameIsLastSegment(p: string)
    ensures var q := TrimTrailingSlashes(p); var r := BaseName(p);
      |r| <= |q| && q[|q| - |r|..] == r && (|r| == |q| || q[|q| - |r| - 1] == '/')
  {
    var q := TrimTrailingSlashes(p);
    var k := LastIndexOf(q, '/');
    assert BaseName(p) == q[k + 1..];
    assert |q| - |BaseName(p)| == k + 1;
  }

  /** The extension of a base name: from its last `.` on, unless that `.`
      is its first character or the name is `..`. */
  function ExtOfBase(base: string): (r: string)
    ensures r == [] || (r[0] == '.' && |r| < |base| && r == base[|base| - |r|..])
    ensures r != [] ==> '.' !in r[1..]
    ensures r == [] <==> base == ".." || forall k :: 0 < k < |base| ==> base[k] != '.'
  {
    var dot := LastIndexOf(base, '.');
    if dot <= 0 || base == ".." then "" else base[dot..]
  }

  /** `path.extname`: the last segment from its last `.` on; nothing when
      that segment has no `.` after its first character, or is `..`. */
  function ExtName(p: string): (r: string)
    ensures r == [] || (r[0] == '.' && '/' !in r && '.' !in r[1..])
    ensures var b := BaseName(p); r == [] || (|r| < |b| && r == b[|b| - |r|..])
    ensures var b := BaseName(p); r == [] <==> b == ".." || forall k :: 0 < k < |b| ==> b[k] != '.'
  {
    var b := BaseName(p);
    var r := ExtOfBase(b);
    assert '/' !in r by {
      forall m | 0 <= m < |r| ensures r[m] != '/' {
        assert r[m] == b[|b| - |r| + m];
      }
    }
    r
  }

  /** A name after the last `/` is the base name. */
  lemma BaseNameAfterSlash(dir: string, name: string)
    requires '/' !in name && name != []
    ensures BaseName(dir + ("/" + name)) == name
  {
    var p := dir + ("/" + name);
    assert p[|p| - 1] == name[|name| - 1];
    assert TrimTrailingSlashes(p) == p;
    assert p[|dir|] == '/';
    assert forall k :: |dir| < k < |p| ==> p[k] == name[k - |dir| - 1];
    var k := LastIndexOf(p, '/');
    assert k == |dir|;
    assert p[k + 1..] == name;
  }
}
