/** Path resolution: the recursive walk with one shared link counter. */
module Walk {
  import opened Common
  import opened Bits
  import opened FsErrors
  import opened DirBlock
  import opened Directory
  import opened NameTree

  const MAX_SYMLOOP: nat := 40

  /** What the walk asks of the filesystem. `link` says whether an inode is a symbolic link, and
      `target` gives its text; both can fail. `dir` says which inodes are directories; the walk
      itself never asks. */
  datatype Fs = Fs(lookup: (nat, Name) -> Result<nat>, link: nat -> Result<bool>, target: nat -> Result<seq<byte>>, dir: nat -> bool)

  /** How a walk ends: at an inode, with an error of the filesystem, or at the link limit. */
  datatype End = Found(ino: nat) | Failed(error: FsError) | Loop

  // ---- paths ----------------------------------------------------------------------------------

  predicate Absolute(path: seq<byte>) {
    path != [] && path[0] == SLASH
  }

  function From(path: seq<byte>, start: nat): nat {
    if Absolute(path) then ROOT else start
  }

  /** Length of the part before the first slash. */
  function Head(path: seq<byte>): (n: nat)
    ensures n <= |path| && SLASH !in path[..n] && (n < |path| ==> path[n] == SLASH)
  {
    if path == [] || path[0] == SLASH then 0
    else
      var n := Head(path[1..]);
      assert path[..n + 1] == [path[0]] + path[1..][..n];
      n + 1
  }

  function Kept(c: Name): seq<Name> {
    if c == [] || c == DOT then [] else [c]
  }

  /** The components: the pieces between slashes without the empty ones and ".". */
  function Comps(path: seq<byte>): seq<Name>
    decreases |path|
  {
    var n := Head(path);
    Kept(path[..n]) + (if n < |path| then Comps(path[n + 1..]) else [])
  }

  lemma HeadConcat(a: seq<byte>, b: seq<byte>)
    ensures Head(a) < |a| ==> Head(a + b) == Head(a)
    ensures Head(a) == |a| && Absolute(b) ==> Head(a + b) == |a|
    decreases |a|
  {
    if a == [] {
      assert a + b == b;
    } else if a[0] != SLASH {
      assert (a + b)[1..] == a[1..] + b;
      HeadConcat(a[1..], b);
    }
  }

  /** One piece, then the rest. */
  lemma CompsAt(path: seq<byte>, n: nat)
    requires n == Head(path)
    ensures n < |path| ==> Comps(path) == Kept(path[..n]) + Comps(path[n + 1..])
    ensures n == |path| ==> Comps(path) == Kept(path)
  {
    hide Kept, Head;
    assert path[..|path|] == path;
  }

  /** Joining two paths with a slash joins their components. */
  lemma {:induction false} CompsJoin(a: seq<byte>, b: seq<byte>)
    ensures Comps(a + [SLASH] + b) == Comps(a) + Comps(b)
    decreases |a|
  {
    hide Comps, Kept;
    var s, n := [SLASH] + b, Head(a);
    var p := a + [SLASH] + b;
    assert p == a + s;
    HeadConcat(a, s);
    CompsAt(a, n);
    CompsAt(p, n);
    assert p[..n] == a[..n];
    if n < |a| {
      assert p[n + 1..] == a[n + 1..] + [SLASH] + b;
      CompsJoin(a[n + 1..], b);
      assert Kept(a[..n]) + (Comps(a[n + 1..]) + Comps(b)) == (Kept(a[..n]) + Comps(a[n + 1..])) + Comps(b);
    } else {
      assert p[n + 1..] == b;
      assert a[..n] == a;
    }
  }

  // ---- the flat machine -----------------------------------------------------------------------

  /** A component still to be resolved, and whether to follow it should it be a link. */
  datatype Todo = Todo(name: Name, follow: bool)

  /** All components but the last are followed; the last as told. */
  function Plan(comps: seq<Name>, last: bool): seq<Todo> {
    if comps == [] then []
    else [Todo(comps[0], |comps| > 1 || last)] + Plan(comps[1..], last)
  }

  /** Resolution without recursion: the text of a link is put before the components that remain. `depth` counts the links met. */
  function Run(fs: Fs, cur: nat, work: seq<Todo>, depth: nat): (End, nat)
    decreases if depth <= MAX_SYMLOOP then MAX_SYMLOOP + 1 - depth else 0, |work|
  {
    if work == [] then (Found(cur), depth)
    else
      var next := fs.lookup(cur, work[0].name);
      if next.Err? then (Failed(next.error), depth)
      else
        var isLink := fs.link(next.value);
        if isLink.Err? then (Failed(isLink.error), depth)
        else if isLink.value && work[0].follow then
          if depth >= MAX_SYMLOOP then (Loop, depth + 1)
          else
            var text := fs.target(next.value);
            if text.Err? then (Failed(text.error), depth + 1)
            else Run(fs, From(text.value, cur), Plan(Comps(text.value), true) + work[1..], depth + 1)
        else Run(fs, next.value, work[1..], depth)
  }

  /** Work can be done in two parts. */
  lemma {:induction false} RunSplit(fs: Fs, cur: nat, w1: seq<Todo>, w2: seq<Todo>, depth: nat)
    ensures Run(fs, cur, w1 + w2, depth) ==
      var (e, d) := Run(fs, cur, w1, depth);
      if e.Found? then Run(fs, e.ino, w2, d) else (e, d)
    decreases if depth <= MAX_SYMLOOP then MAX_SYMLOOP + 1 - depth else 0, |w1|
  {
    hide Comps, Plan;
    if w1 == [] {
      assert w1 + w2 == w2;
    } else {
      assert (w1 + w2)[1..] == w1[1..] + w2;
      var next := fs.lookup(cur, w1[0].name);
      if next.Ok? && fs.link(next.value).Ok? {
        if fs.link(next.value).value && w1[0].follow {
          if depth < MAX_SYMLOOP && fs.target(next.value).Ok? {
            var text := fs.target(next.value).value;
            var p := Plan(Comps(text), true);
            assert p + (w1[1..] + w2) == (p + w1[1..]) + w2;
            RunSplit(fs, From(text, cur), p + w1[1..], w2, depth + 1);
          }
        } else {
          RunSplit(fs, next.value, w1[1..], w2, depth);
        }
      }
    }
  }

  /** The counter only grows, a walk that is not cut off stays within the limit, and one that is
      cut off stands just above it. */
  lemma {:induction false} DepthBound(fs: Fs, cur: nat, work: seq<Todo>, depth: nat)
    requires depth <= MAX_SYMLOOP
    ensures var (e, d) := Run(fs, cur, work, depth);
            depth <= d && if e.Loop? then d == MAX_SYMLOOP + 1 else d <= MAX_SYMLOOP
    decreases MAX_SYMLOOP + 1 - depth, |work|
  {
    hide Comps, Plan;
    if work != [] {
      var next := fs.lookup(cur, work[0].name);
      if next.Ok? && fs.link(next.value).Ok? {
        if fs.link(next.value).value && work[0].follow {
          if depth < MAX_SYMLOOP && fs.target(next.value).Ok? {
            var text := fs.target(next.value).value;
            DepthBound(fs, From(text, cur), Plan(Comps(text), true) + work[1..], depth + 1);
          }
        } else {
          DepthBound(fs, next.value, work[1..], depth);
        }
      }
    }
  }

  // ---- the recursive walk ---------------------------------------------------------------------

  /** `walk`. It ends on every filesystem and equals the flat machine, counter included. */
  method WalkPath(fs: Fs, start: nat, path: seq<byte>, followLast: bool, depth: nat) returns (e: End, d: nat)
    requires depth <= MAX_SYMLOOP
    ensures (e, d) == Run(fs, From(path, start), Plan(Comps(path), followLast), depth)
    ensures depth <= d && if e.Loop? then d == MAX_SYMLOOP + 1 else d <= MAX_SYMLOOP
    decreases MAX_SYMLOOP + 1 - depth
  {
    hide Comps, Absolute;
    var cur := From(path, start);
    var comps := Comps(path);
    ghost var goal := Run(fs, cur, Plan(comps, followLast), depth);
    DepthBound(fs, cur, Plan(comps, followLast), depth);
    d := depth;
    var i := 0;
    while i < |comps|
      invariant 0 <= i <= |comps| && depth <= d <= MAX_SYMLOOP
      invariant Run(fs, cur, Plan(comps[i..], followLast), d) == goal
    {
      var c := comps[i];
      var last := i + 1 == |comps|;
      PlanFirst(comps[i..], followLast);
      assert comps[i..][1..] == comps[i + 1..];
      ghost var rest := Plan(comps[i + 1..], followLast);
      ghost var todo := Todo(c, !last || followLast);
      assert Plan(comps[i..], followLast) == [todo] + rest;
      assert ([todo] + rest)[1..] == rest;
      var next := fs.lookup(cur, c);
      if next.Err? { return Failed(next.error), d; }
      var isLink := fs.link(next.value);
      if isLink.Err? { return Failed(isLink.error), d; }
      if isLink.value && (!last || followLast) {
        d := d + 1;
        if d > MAX_SYMLOOP { return Loop, d; }
        var text := fs.target(next.value);
        if text.Err? { return Failed(text.error), d; }
        RunSplit(fs, From(text.value, cur), Plan(Comps(text.value), true), rest, d);
        e, d := WalkPath(fs, cur, text.value, true, d);
        if !e.Found? { return; }
        cur := e.ino;
      } else {
        cur := next.value;
      }
      i := i + 1;
    }
    assert comps[i..] == [];
    e := Found(cur);
  }

  lemma PlanFirst(comps: seq<Name>, last: bool)
    requires comps != []
    ensures Plan(comps, last) == [Todo(comps[0], |comps| > 1 || last)] + Plan(comps[1..], last)
  {
  }

  // ---- the unbounded specification ------------------------------------------------------------

  /** Resolution without any limit ends in `e` after `n` steps and `k` links. */
  ghost predicate Ends(fs: Fs, cur: nat, work: seq<Todo>, k: nat, e: End, n: nat)
    decreases n
  {
    if work == [] then n == 0 && k == 0 && e == Found(cur)
    else
      var next := fs.lookup(cur, work[0].name);
      if next.Err? then n == 0 && k == 0 && e == Failed(next.error)
      else
        var isLink := fs.link(next.value);
        if isLink.Err? then n == 0 && k == 0 && e == Failed(isLink.error)
        else if isLink.value && work[0].follow then
          k > 0 &&
          var text := fs.target(next.value);
          if text.Err? then n == 0 && k == 1 && e == Failed(text.error)
          else n > 0 && Ends(fs, From(text.value, cur), Plan(Comps(text.value), true) + work[1..], k - 1, e, n - 1)
        else n > 0 && Ends(fs, next.value, work[1..], k, e, n - 1)
  }

  ghost predicate EndsAt(fs: Fs, cur: nat, work: seq<Todo>, k: nat, e: End) {
    exists n :: Ends(fs, cur, work, k, e, n)
  }

  /** Whatever the machine returns within the limit, unbounded resolution returns too. */
  lemma {:induction false} RunSound(fs: Fs, cur: nat, work: seq<Todo>, depth: nat) returns (n: nat)
    requires depth <= MAX_SYMLOOP && !Run(fs, cur, work, depth).0.Loop?
    ensures var (e, d) := Run(fs, cur, work, depth);
            depth <= d <= MAX_SYMLOOP && Ends(fs, cur, work, d - depth, e, n)
    decreases MAX_SYMLOOP + 1 - depth, |work|
  {
    hide Comps, Plan;
    DepthBound(fs, cur, work, depth);
    n := 0;
    if work != [] {
      var next := fs.lookup(cur, work[0].name);
      if next.Ok? && fs.link(next.value).Ok? {
        if fs.link(next.value).value && work[0].follow {
          if depth < MAX_SYMLOOP && fs.target(next.value).Ok? {
            var text := fs.target(next.value).value;
            DepthBound(fs, From(text, cur), Plan(Comps(text), true) + work[1..], depth + 1);
            var m := RunSound(fs, From(text, cur), Plan(Comps(text), true) + work[1..], depth + 1);
            n := m + 1;
          }
        } else {
          var m := RunSound(fs, next.value, work[1..], depth);
          n := m + 1;
        }
      }
    }
  }

  /** Whatever unbounded resolution reaches within the limit, the machine returns. */
  lemma {:induction false} RunComplete(fs: Fs, cur: nat, work: seq<Todo>, depth: nat, k: nat, e: End, n: nat)
    requires Ends(fs, cur, work, k, e, n) && depth + k <= MAX_SYMLOOP
    ensures Run(fs, cur, work, depth) == (e, depth + k)
    decreases n
  {
    hide Comps, Plan;
    if work != [] {
      var next := fs.lookup(cur, work[0].name);
      if next.Ok? && fs.link(next.value).Ok? {
        if fs.link(next.value).value && work[0].follow {
          if fs.target(next.value).Ok? {
            var text := fs.target(next.value).value;
            RunComplete(fs, From(text, cur), Plan(Comps(text), true) + work[1..], depth + 1, k - 1, e, n - 1);
          }
        } else {
          RunComplete(fs, next.value, work[1..], depth, k, e, n - 1);
        }
      }
    }
  }

  /** `resolve` finds exactly what resolution by the same reading of paths finds without a limit and
      with at most 40 links, and reports a loop exactly when that takes more or never ends. How
      that reading differs from the standard's is the subject of `PosixPath`. */
  lemma ResolveExact(fs: Fs, cwd: nat, path: seq<byte>, followLast: bool)
    ensures var cur, work := From(path, cwd), Plan(Comps(path), followLast);
            var (r, d) := Run(fs, cur, work, 0);
            && (forall e, k: nat :: k <= MAX_SYMLOOP ==> ((r == e && d == k) <==> EndsAt(fs, cur, work, k, e)))
            && (r.Loop? <==> forall e, k: nat :: EndsAt(fs, cur, work, k, e) ==> k > MAX_SYMLOOP)
  {
    hide Comps, Plan, Ends, Run;
    var cur, work := From(path, cwd), Plan(Comps(path), followLast);
    var (r, d) := Run(fs, cur, work, 0);
    DepthBound(fs, cur, work, 0);
    forall e, k: nat | EndsAt(fs, cur, work, k, e) && k <= MAX_SYMLOOP ensures r == e && d == k {
      var n :| Ends(fs, cur, work, k, e, n);
      RunComplete(fs, cur, work, 0, k, e, n);
    }
    if !r.Loop? {
      var m := RunSound(fs, cur, work, 0);
      assert EndsAt(fs, cur, work, d, r);
    }
  }

  // ---- where a path starts ----------------------------------------------------------------------

  /** The answer of the walk to a path. */
  function Answer(fs: Fs, cwd: nat, path: seq<byte>, last: bool): End {
    Run(fs, From(path, cwd), Plan(Comps(path), last), 0).0
  }

  /** A path that begins with a slash does not depend on the working directory. */
  lemma AbsoluteAnywhere(fs: Fs, cwd: nat, cwd': nat, path: seq<byte>, last: bool)
    requires path != [] && path[0] == SLASH
    ensures Answer(fs, cwd, path, last) == Answer(fs, cwd', path, last)
  {
    hide Run, Comps, Plan;
  }

  /** A slash before a path resolves it from the root; alone it is the root. */
  lemma SlashStartsAtRoot(fs: Fs, cwd: nat, path: seq<byte>, last: bool)
    ensures Answer(fs, cwd, [SLASH] + path, last) == Answer(fs, ROOT, path, last)
    ensures Answer(fs, cwd, [SLASH], last) == Found(ROOT)
  {
    hide Run, Comps, Plan;
    CompsEmpty();
    CompsJoin([], path);
    CompsJoin([], []);
    assert [] + [SLASH] + path == [SLASH] + path && [] + [SLASH] + [] == [SLASH];
    assert Comps([]) + Comps(path) == Comps(path) && Comps([]) + Comps([]) == [];
    NothingToDo(fs, ROOT, last, 0);
  }

  lemma NothingToDo(fs: Fs, cur: nat, last: bool, depth: nat)
    ensures Run(fs, cur, Plan([], last), depth) == (Found(cur), depth)
  {
  }

  /** A link met in the middle of a walk: its text is resolved from the root if it begins with a slash and from
      the directory that holds the link if not, and the walk goes on from there. */
  lemma LinkText(fs: Fs, cur: nat, work: seq<Todo>, depth: nat, link: nat, text: seq<byte>)
    requires work != [] && work[0].follow && depth < MAX_SYMLOOP
    requires fs.lookup(cur, work[0].name) == Ok(link) && fs.link(link) == Ok(true) && fs.target(link) == Ok(text)
    ensures Run(fs, cur, work, depth) ==
      var start := if text != [] && text[0] == SLASH then ROOT else cur;
      var (e, d) := Run(fs, start, Plan(Comps(text), true), depth + 1);
      if e.Found? then Run(fs, e.ino, work[1..], d) else (e, d)
  {
    hide Comps, Plan;
    var start := if text != [] && text[0] == SLASH then ROOT else cur;
    RunSplit(fs, start, Plan(Comps(text), true), work[1..], depth + 1);
  }

  /** Two paths joined by a slash: the second is resolved from where the first leads, with the same counter. */
  lemma JoinedPaths(fs: Fs, cwd: nat, a: seq<byte>, b: seq<byte>, last: bool)
    requires a != [] && Comps(b) != []
    ensures Run(fs, From(a + [SLASH] + b, cwd), Plan(Comps(a + [SLASH] + b), last), 0) ==
      var (e, d) := Run(fs, From(a, cwd), Plan(Comps(a), true), 0);
      if e.Found? then Run(fs, e.ino, Plan(Comps(b), last), d) else (e, d)
  {
    hide Run, Comps, Plan;
    CompsJoin(a, b);
    PlanJoin(Comps(a), Comps(b), last);
    assert (a + [SLASH] + b)[0] == a[0];
    RunSplit(fs, From(a, cwd), Plan(Comps(a), true), Plan(Comps(b), last), 0);
  }

  lemma {:induction false} PlanJoin(a: seq<Name>, b: seq<Name>, last: bool)
    requires b != []
    ensures Plan(a + b, last) == Plan(a, true) + Plan(b, last)
    decreases |a|
  {
    if a == [] {
      assert a + b == b;
    } else {
      assert (a + b)[1..] == a[1..] + b;
      PlanJoin(a[1..], b, last);
    }
  }

  /** A name that a directory accepts is one component of a path, so that what has been entered under it is found by it. */
  lemma NameIsPath(fs: Fs, dir: nat, name: Name, ino: nat, last: bool)
    requires ValidateName(name).None? && name != DOT
    ensures Comps(name) == [name]
    ensures fs.lookup(dir, name) == Ok(ino) && fs.link(ino) == Ok(false) ==> Answer(fs, dir, name, last) == Found(ino)
  {
    NoSlashHead(name);
    hide Comps;
    PlanFirst([name], last);
    if fs.lookup(dir, name) == Ok(ino) && fs.link(ino) == Ok(false) {
      assert [name][1..] == [];
      NothingToDo(fs, ino, last, 0);
      assert ([Todo(name, last)] + Plan([], last))[1..] == Plan([], last);
    }
  }

  // ---- parent and name ------------------------------------------------------------------------

  /** The path without trailing slashes. */
  function Trim(path: seq<byte>): seq<byte> {
    if path != [] && path[|path| - 1] == SLASH then Trim(path[..|path| - 1]) else path
  }

  /** Where the last slash stands. */
  function LastSlash(path: seq<byte>): (r: Option<nat>)
    ensures r.None? ==> SLASH !in path
    ensures r.Some? ==> r.value < |path| && path[r.value] == SLASH && SLASH !in path[r.value + 1..]
  {
    if path == [] then None
    else
      var last := |path| - 1;
      if path[last] == SLASH then Some(last)
      else
        var r := LastSlash(path[..last]);
        assert r.Some? ==> path[r.value + 1..] == path[..last][r.value + 1..] + [path[last]];
        assert path == path[..last] + [path[last]];
        r
  }

  /** `resolve_parent` before it resolves the directory part; `None` is its Invalid. */
  function SplitParent(path: seq<byte>): Option<(seq<byte>, Name)> {
    var t := Trim(path);
    if t == [] then None
    else
      match LastSlash(t)
      case None => Some((DOT, t))
      case Some(p) => Some((if p == 0 then [SLASH] else t[..p], t[p + 1..]))
  }

  lemma NoSlashHead(name: seq<byte>)
    requires SLASH !in name
    ensures Head(name) == |name| && Comps(name) == Kept(name)
  {
    assert name[..|name|] == name;
  }

  lemma CompsEmpty()
    ensures Comps([]) == []
  {
  }

  lemma {:induction false} TrimComps(path: seq<byte>)
    ensures Comps(Trim(path)) == Comps(path)
    ensures Trim(path) != [] ==> Trim(path)[|Trim(path)| - 1] != SLASH && (Absolute(Trim(path)) <==> Absolute(path))
  {
    hide Comps;
    if path != [] && path[|path| - 1] == SLASH {
      var p := path[..|path| - 1];
      TrimComps(p);
      CompsJoin(p, []);
      CompsEmpty();
      assert p + [SLASH] + [] == path;
      assert Comps(p) + [] == Comps(p);
    }
  }

  /** Only a path of nothing but slashes has no last name. */
  lemma NoLastName(path: seq<byte>)
    ensures SplitParent(path).None? <==> forall i :: 0 <= i < |path| ==> path[i] == SLASH
  {
    hide Trim, LastSlash;
    TrimEmpty(path);
  }

  lemma {:induction false} TrimEmpty(path: seq<byte>)
    ensures Trim(path) == [] <==> forall i :: 0 <= i < |path| ==> path[i] == SLASH
  {
    if path != [] && path[|path| - 1] == SLASH {
      var p := path[..|path| - 1];
      TrimEmpty(p);
      assert forall i :: 0 <= i < |p| ==> p[i] == path[i];
    }
  }

  lemma SplitComps(path: seq<byte>, dir: seq<byte>, name: Name)
    requires SplitParent(path) == Some((dir, name))
    ensures name != [] && SLASH !in name && Comps(path) == Comps(dir) + Kept(name) && (Absolute(dir) <==> Absolute(path))
  {
    hide Comps, Kept, Head, Trim, LastSlash, Absolute;
    var t := Trim(path);
    TrimComps(path);
    match LastSlash(t)
    case None =>
      NoSlashHead(t);
      DotComps();
      NoSlashRelative(t);
      assert Comps(DOT) + Kept(t) == Kept(t);
    case Some(p) =>
      LastPiece(t, p);
      if p == 0 { RootComps(t); }
  }

  lemma NoSlashRelative(t: seq<byte>)
    requires SLASH !in t
    ensures !Absolute(t)
  {
  }

  lemma LastPiece(t: seq<byte>, p: nat)
    requires p < |t| && t[p] == SLASH && SLASH !in t[p + 1..] && t[|t| - 1] != SLASH
    ensures t[p + 1..] != [] && Comps(t) == Comps(t[..p]) + Kept(t[p + 1..])
    ensures p > 0 ==> (Absolute(t[..p]) <==> Absolute(t))
  {
    hide Comps, Kept, Head;
    Cut(t, p);
    JoinPiece(t[..p], t[p + 1..]);
  }

  lemma Cut(t: seq<byte>, p: nat)
    requires p < |t| && t[p] == SLASH
    ensures t == t[..p] + [SLASH] + t[p + 1..]
  {
  }

  lemma JoinPiece(a: seq<byte>, name: Name)
    requires SLASH !in name
    ensures Comps(a + [SLASH] + name) == Comps(a) + Kept(name)
  {
    hide Comps, Kept, Head;
    CompsJoin(a, name);
    NoSlashHead(name);
  }

  lemma RootComps(t: seq<byte>)
    requires t != [] && t[0] == SLASH
    ensures Comps([SLASH]) == Comps(t[..0]) && Absolute([SLASH]) && Absolute(t)
  {
    hide Comps;
    CompsEmpty();
    CompsJoin([], []);
    assert [] + [SLASH] + [] == [SLASH] && t[..0] == [];
    assert Comps([]) + Comps([]) == Comps([]);
  }

  lemma DotComps()
    ensures Comps(DOT) == [] && !Absolute(DOT)
  {
    NoSlashHead(DOT);
  }

  lemma {:induction false} PlanAppend(comps: seq<Name>, name: Name)
    ensures Plan(comps + [name], false) == Plan(comps, true) + [Todo(name, false)]
    decreases |comps|
  {
    if comps == [] {
      assert comps + [name] == [name];
      assert [name][1..] == [];
    } else {
      assert (comps + [name])[1..] == comps[1..] + [name];
      PlanAppend(comps[1..], name);
    }
  }

  /** Parent and name together name what the path names: resolving a path without following its
      last component is resolving the parent and looking the name up there. */
  lemma ParentThenName(fs: Fs, cwd: nat, path: seq<byte>, dir: seq<byte>, name: Name)
    requires SplitParent(path) == Some((dir, name)) && name != DOT
    ensures Run(fs, From(path, cwd), Plan(Comps(path), false), 0) ==
      var (e, d) := Run(fs, From(dir, cwd), Plan(Comps(dir), true), 0);
      if e.Found? then Run(fs, e.ino, [Todo(name, false)], d) else (e, d)
  {
    hide Comps, Plan, Run, SplitParent, Absolute;
    SplitComps(path, dir, name);
    PlanAppend(Comps(dir), name);
    RunSplit(fs, From(dir, cwd), Plan(Comps(dir), true), [Todo(name, false)], 0);
  }

  /** A final "." is dropped: "d/." resolves as "d" does, even if that is a link not to be followed. */
  lemma TrailingDotDropped(fs: Fs, cwd: nat, path: seq<byte>, dir: seq<byte>, last: bool)
    requires SplitParent(path) == Some((dir, DOT))
    ensures Run(fs, From(path, cwd), Plan(Comps(path), last), 0) == Run(fs, From(dir, cwd), Plan(Comps(dir), last), 0)
  {
    hide Comps, Plan, Run, SplitParent, Absolute;
    SplitComps(path, dir, DOT);
    assert Comps(dir) + [] == Comps(dir);
  }
}
