/** Pathname resolution as section 4.13 of POSIX.1-2017 XBD has it, and where the walk departs from it. */
module PosixPath {
  import opened Bits
  import opened FsErrors
  import opened DirBlock
  import opened Directory
  import opened NameTree
  import opened Walk

  // ---- the specification ------------------------------------------------------------------------

  /** The pieces between slashes, "." included; empty ones count for nothing. */
  function Pieces(path: seq<byte>): seq<Name>
    decreases |path|
  {
    var n := Head(path);
    (if n == 0 then [] else [path[..n]]) + (if n < |path| then Pieces(path[n + 1..]) else [])
  }

  /** A trailing slash after some other character. */
  predicate TrailingSlash(path: seq<byte>) {
    path != [] && path[|path| - 1] == SLASH && Pieces(path) != []
  }

  /** A pathname with a trailing slash is resolved as if a dot were appended. */
  function Filenames(path: seq<byte>): seq<Name> {
    Pieces(path) + if TrailingSlash(path) then [DOT] else []
  }

  /** Dot refers to its predecessor, which must be a directory; any other filename is looked up. */
  datatype Step = Here | Go(name: Name, follow: bool)

  /** Every filename but the last is followed if it is a link; the last as told. */
  function Steps(names: seq<Name>, last: bool): seq<Step> {
    if names == [] then []
    else [if names[0] == DOT then Here else Go(names[0], |names| > 1 || last)] + Steps(names[1..], last)
  }

  /** The contents of a link put before the remaining pathname. */
  function Prefixed(text: seq<byte>, rest: seq<Step>): seq<Step> {
    if rest == [] then Steps(Filenames(text), true) else Steps(Pieces(text), true) + rest
  }

  /** A pathname that begins with a slash is resolved from the root, any other from the directory at hand. */
  function Origin(path: seq<byte>, dir: nat): nat {
    if [SLASH] <= path then ROOT else dir
  }

  lemma SameOrigin(path: seq<byte>, dir: nat)
    ensures Origin(path, dir) == From(path, dir)
  {
  }

  /** Resolution ends in `e` after `n` steps and `k` links. */
  ghost predicate Posix(fs: Fs, cur: nat, steps: seq<Step>, k: nat, e: End, n: nat)
    decreases n
  {
    if steps == [] then n == 0 && k == 0 && e == Found(cur)
    else if steps[0].Here? then
      if !fs.dir(cur) then n == 0 && k == 0 && e == Failed(NotDirectory)
      else n > 0 && Posix(fs, cur, steps[1..], k, e, n - 1)
    else
      var next := fs.lookup(cur, steps[0].name);
      if next.Err? then n == 0 && k == 0 && e == Failed(next.error)
      else
        var isLink := fs.link(next.value);
        if isLink.Err? then n == 0 && k == 0 && e == Failed(isLink.error)
        else if isLink.value && steps[0].follow then
          k > 0 &&
          var text := fs.target(next.value);
          if text.Err? then n == 0 && k == 1 && e == Failed(text.error)
          else n > 0 && Posix(fs, Origin(text.value, cur), Prefixed(text.value, steps[1..]), k - 1, e, n - 1)
        else n > 0 && Posix(fs, next.value, steps[1..], k, e, n - 1)
  }

  /** What a pathname resolves to; the empty one is not resolved. */
  ghost predicate Resolves(fs: Fs, cwd: nat, path: seq<byte>, last: bool, k: nat, e: End) {
    if path == [] then k == 0 && e == Failed(NotFound)
    else exists n :: Posix(fs, Origin(path, cwd), Steps(Filenames(path), last), k, e, n)
  }

  /** Only directories have entries, and a link is no directory. */
  ghost predicate Sane(fs: Fs) {
    && (forall d, n :: fs.lookup(d, n).Ok? ==> fs.dir(d))
    && (forall i :: fs.link(i) == Ok(true) ==> !fs.dir(i))
  }

  // ---- from steps to components -------------------------------------------------------------------

  function Erase(steps: seq<Step>): seq<Todo> {
    if steps == [] then []
    else (if steps[0].Here? then [] else [Todo(steps[0].name, steps[0].follow)]) + Erase(steps[1..])
  }

  function NoDots(names: seq<Name>): seq<Name> {
    if names == [] then [] else (if names[0] == DOT then [] else [names[0]]) + NoDots(names[1..])
  }

  predicate EndsDot(names: seq<Name>) { names != [] && names[|names| - 1] == DOT }

  predicate EndsHere(steps: seq<Step>) { steps != [] && steps[|steps| - 1].Here? }

  /** The path asks for a directory: it ends in a slash or in ".". */
  predicate Tail(path: seq<byte>) { EndsDot(Filenames(path)) }

  lemma {:induction false} NoDotsConcat(a: seq<Name>, b: seq<Name>)
    ensures NoDots(a + b) == NoDots(a) + NoDots(b)
  {
    if a == [] {
      assert a + b == b;
    } else {
      assert (a + b)[1..] == a[1..] + b;
      NoDotsConcat(a[1..], b);
    }
  }

  lemma {:induction false} EraseConcat(a: seq<Step>, b: seq<Step>)
    ensures Erase(a + b) == Erase(a) + Erase(b)
  {
    if a == [] {
      assert a + b == b;
    } else {
      assert (a + b)[1..] == a[1..] + b;
      EraseConcat(a[1..], b);
    }
  }

  /** The walk's components are the pieces without the dots. */
  lemma {:induction false} CompsArePieces(path: seq<byte>)
    ensures NoDots(Pieces(path)) == Comps(path)
    decreases |path|
  {
    var n := Head(path);
    CompsAt(path, n);
    assert path[..|path|] == path;
    var piece: seq<Name> := if n == 0 then [] else [path[..n]];
    var rest := if n < |path| then Pieces(path[n + 1..]) else [];
    if n < |path| { CompsArePieces(path[n + 1..]); }
    NoDotsConcat(piece, rest);
    NoDotsOne(path[..n]);
  }

  lemma NoDotsOne(c: Name)
    ensures NoDots([c]) == (if c == DOT then [] else [c]) && NoDots([]) == []
  {
    assert [c][1..] == [];
  }

  lemma DotsGone(path: seq<byte>)
    ensures NoDots(Filenames(path)) == Comps(path)
  {
    hide NoDots, Pieces;
    CompsArePieces(path);
    NoDotsConcat(Pieces(path), if TrailingSlash(path) then [DOT] else []);
    NoDotsOne(DOT);
    assert Comps(path) + [] == Comps(path);
  }

  lemma {:induction false} EraseSteps(names: seq<Name>, last: bool)
    ensures Erase(Steps(names, last)) == Plan(NoDots(names), last || EndsDot(names))
    ensures EndsHere(Steps(names, last)) <==> EndsDot(names)
    ensures names != [] <==> Steps(names, last) != []
    decreases |names|
  {
    if names != [] {
      var rest, s := names[1..], Steps(names, last);
      assert s[1..] == Steps(rest, last);
      EraseSteps(rest, last);
      if rest == [] {
        EraseLast(names[0], last);
        assert names == [names[0]];
      } else {
        assert EndsDot(names) <==> EndsDot(rest);
        assert s[|s| - 1] == s[1..][|s| - 2];
        AllDots(rest);
        EraseFirst(names, last || EndsDot(names));
      }
    }
  }

  lemma EraseLast(name: Name, last: bool)
    ensures Steps([name], last) == [if name == DOT then Here else Go(name, last)]
    ensures Erase(Steps([name], last)) == Plan(NoDots([name]), last || EndsDot([name]))
  {
    var one := [name];
    assert one[1..] == [] && Steps(one[1..], last) == [];
    NoDotsOne(name);
    var s := Steps(one, last);
    assert s == [if name == DOT then Here else Go(name, last)] && |s[1..]| == 0;
  }

  lemma EraseFirst(names: seq<Name>, last: bool)
    requires |names| > 1 && (NoDots(names[1..]) == [] ==> last)
    ensures Plan(NoDots(names), last) == (if names[0] == DOT then [] else [Todo(names[0], true)]) + Plan(NoDots(names[1..]), last)
  {
    var kept := NoDots(names);
    if names[0] != DOT { assert kept[1..] == NoDots(names[1..]); } else { assert kept == NoDots(names[1..]); }
  }

  lemma {:induction false} AllDots(names: seq<Name>)
    requires names != []
    ensures NoDots(names) == [] ==> EndsDot(names)
    decreases |names|
  {
    if |names| > 1 { AllDots(names[1..]); }
  }

  lemma PathSteps(path: seq<byte>, last: bool)
    ensures Erase(Steps(Filenames(path), last)) == Plan(Comps(path), last || Tail(path))
    ensures EndsHere(Steps(Filenames(path), last)) <==> Tail(path)
  {
    hide Erase, Steps, Filenames, NoDots;
    EraseSteps(Filenames(path), last);
    DotsGone(path);
  }

  lemma ErasePrefixed(text: seq<byte>, rest: seq<Step>)
    ensures Erase(Prefixed(text, rest)) == Plan(Comps(text), true) + Erase(rest)
    ensures EndsHere(Prefixed(text, rest)) <==> if rest == [] then Tail(text) else EndsHere(rest)
  {
    hide Steps, Filenames, NoDots, Plan, Comps;
    if rest == [] {
      PathSteps(text, true);
      assert Plan(Comps(text), true) + [] == Plan(Comps(text), true);
    } else {
      EraseSteps(Pieces(text), true);
      CompsArePieces(text);
      EraseConcat(Steps(Pieces(text), true), rest);
    }
  }

  // ---- the walk simulates it -----------------------------------------------------------------------

  /** Whether the path, or the text of a link that came to stand at its end, asks for a directory. */
  ghost predicate Demand(fs: Fs, cur: nat, work: seq<Todo>, depth: nat, asked: bool)
    decreases if depth <= MAX_SYMLOOP then MAX_SYMLOOP + 1 - depth else 0, |work|
  {
    if work == [] then asked
    else
      var next := fs.lookup(cur, work[0].name);
      if next.Err? || fs.link(next.value).Err? then asked
      else if fs.link(next.value).value && work[0].follow then
        if depth >= MAX_SYMLOOP || fs.target(next.value).Err? then asked
        else
          var text := fs.target(next.value).value;
          Demand(fs, From(text, cur), Plan(Comps(text), true) + work[1..], depth + 1, asked || (|work| == 1 && Tail(text)))
      else Demand(fs, next.value, work[1..], depth, asked)
  }

  lemma {:induction false} AskedStays(fs: Fs, cur: nat, work: seq<Todo>, depth: nat)
    ensures Demand(fs, cur, work, depth, true)
    decreases if depth <= MAX_SYMLOOP then MAX_SYMLOOP + 1 - depth else 0, |work|
  {
    hide Comps, Plan, Tail;
    if work != [] {
      var next := fs.lookup(cur, work[0].name);
      if next.Ok? && fs.link(next.value).Ok? {
        if fs.link(next.value).value && work[0].follow {
          if depth < MAX_SYMLOOP && fs.target(next.value).Ok? {
            var text := fs.target(next.value).value;
            AskedStays(fs, From(text, cur), Plan(Comps(text), true) + work[1..], depth + 1);
          }
        } else {
          AskedStays(fs, next.value, work[1..], depth);
        }
      }
    }
  }

  lemma EraseGo(steps: seq<Step>)
    requires steps != [] && steps[0].Go?
    ensures Erase(steps) != [] && Erase(steps)[0] == Todo(steps[0].name, steps[0].follow) && Erase(steps)[1..] == Erase(steps[1..])
    ensures |Erase(steps)| == 1 ==> steps[1..] == [] || EndsHere(steps)
    ensures steps[1..] == [] ==> |Erase(steps)| == 1 && !EndsHere(steps)
    ensures steps[1..] != [] ==> (EndsHere(steps) <==> EndsHere(steps[1..]))
  {
    if |steps| > 1 { AllHere(steps[1..]); }
  }

  lemma {:induction false} AllHere(steps: seq<Step>)
    requires steps != []
    ensures Erase(steps) == [] ==> EndsHere(steps)
    decreases |steps|
  {
    if |steps| > 1 { AllHere(steps[1..]); }
  }

  lemma EraseHere(steps: seq<Step>)
    requires steps != [] && steps[0].Here?
    ensures Erase(steps) == Erase(steps[1..])
    ensures Erase(steps) == [] ==> EndsHere(steps)
    ensures steps[1..] != [] ==> (EndsHere(steps) <==> EndsHere(steps[1..]))
  {
    AllHere(steps);
  }

  /** A walk that ends, ends as the standard has it, but for the directory asked for at the end. */
  lemma {:induction false} Simulated(fs: Fs, cur: nat, steps: seq<Step>, depth: nat) returns (n: nat, k: nat, e: End)
    requires Sane(fs) && depth <= MAX_SYMLOOP && !Run(fs, cur, Erase(steps), depth).0.Loop?
    ensures Posix(fs, cur, steps, k, e, n)
    ensures var (r, d) := Run(fs, cur, Erase(steps), depth);
            && (r.Failed? ==> e.Failed?)
            && (r.Found? ==> e == if Demand(fs, cur, Erase(steps), depth, EndsHere(steps)) && !fs.dir(r.ino) then Failed(NotDirectory) else r)
    decreases MAX_SYMLOOP + 1 - depth, |steps|
  {
    hide Erase, Comps, Plan, Tail, Prefixed, EndsHere;
    if steps == [] {
      EraseNothing();
      n, k, e := 0, 0, Found(cur);
    } else if steps[0].Here? {
      EraseHere(steps);
      if fs.dir(cur) {
        var m;
        m, k, e := Simulated(fs, cur, steps[1..], depth);
        n := m + 1;
        if steps[1..] == [] { EraseNothing(); }
      } else {
        n, k, e := 0, 0, Failed(NotDirectory);
      }
    } else {
      EraseGo(steps);
      var work, rest := Erase(steps), steps[1..];
      var next := fs.lookup(cur, steps[0].name);
      if next.Err? {
        n, k, e := 0, 0, Failed(next.error);
      } else if fs.link(next.value).Err? {
        n, k, e := 0, 0, Failed(fs.link(next.value).error);
      } else if fs.link(next.value).value && steps[0].follow {
        var text := fs.target(next.value);
        if text.Err? {
          n, k, e := 0, 1, Failed(text.error);
        } else {
          ErasePrefixed(text.value, rest);
          SameOrigin(text.value, cur);
          var m, j;
          m, j, e := Simulated(fs, From(text.value, cur), Prefixed(text.value, rest), depth + 1);
          n, k := m + 1, j + 1;
        }
      } else {
        var m;
        m, k, e := Simulated(fs, next.value, rest, depth);
        n := m + 1;
        if rest == [] { EraseNothing(); }
      }
    }
  }

  lemma EraseNothing()
    ensures Erase([]) == [] && !EndsHere([])
  {
  }

  /** A walk that is cut off at the limit would need more links under the standard as well. */
  lemma {:induction false} CutOff(fs: Fs, cur: nat, steps: seq<Step>, depth: nat, k: nat, e: End, n: nat)
    requires Sane(fs) && depth <= MAX_SYMLOOP && Run(fs, cur, Erase(steps), depth).0.Loop? && Posix(fs, cur, steps, k, e, n)
    ensures depth + k > MAX_SYMLOOP
    decreases n
  {
    hide Erase, Comps, Plan, Tail, Prefixed, EndsHere;
    if steps == [] {
      EraseNothing();
    } else if steps[0].Here? {
      EraseHere(steps);
      if n > 0 { CutOff(fs, cur, steps[1..], depth, k, e, n - 1); }
    } else {
      EraseGo(steps);
      var next := fs.lookup(cur, steps[0].name);
      if next.Ok? && fs.link(next.value).Ok? {
        if fs.link(next.value).value && steps[0].follow {
          var text := fs.target(next.value);
          if depth < MAX_SYMLOOP && text.Ok? {
            ErasePrefixed(text.value, steps[1..]);
            CutOff(fs, From(text.value, cur), Prefixed(text.value, steps[1..]), depth + 1, k - 1, e, n - 1);
          }
        } else {
          CutOff(fs, next.value, steps[1..], depth, k, e, n - 1);
        }
      }
    }
  }

  /** Resolution has one outcome. */
  lemma {:induction false} OneOutcome(fs: Fs, cur: nat, steps: seq<Step>, k: nat, e: End, n: nat, k': nat, e': End, n': nat)
    requires Posix(fs, cur, steps, k, e, n) && Posix(fs, cur, steps, k', e', n')
    ensures k == k' && e == e'
    decreases n
  {
    hide Prefixed;
    if steps != [] {
      if steps[0].Here? {
        if n > 0 { OneOutcome(fs, cur, steps[1..], k, e, n - 1, k', e', n' - 1); }
      } else {
        var next := fs.lookup(cur, steps[0].name);
        if next.Ok? && fs.link(next.value).Ok? {
          if fs.link(next.value).value && steps[0].follow {
            var text := fs.target(next.value);
            if text.Ok? {
              OneOutcome(fs, From(text.value, cur), Prefixed(text.value, steps[1..]), k - 1, e, n - 1, k' - 1, e', n' - 1);
            }
          } else {
            OneOutcome(fs, next.value, steps[1..], k, e, n - 1, k', e', n' - 1);
          }
        }
      }
    }
  }

  /** A path that asks for a directory finds only directories. */
  lemma {:induction false} FindsDirectory(fs: Fs, cur: nat, steps: seq<Step>, k: nat, x: nat, n: nat)
    requires EndsHere(steps) && Posix(fs, cur, steps, k, Found(x), n)
    ensures fs.dir(x)
    decreases n
  {
    hide Prefixed;
    var rest := steps[1..];
    assert rest != [] ==> EndsHere(rest);
    if steps[0].Here? {
      if rest == [] {
        assert Posix(fs, cur, [], k, Found(x), n - 1);
      } else {
        FindsDirectory(fs, cur, rest, k, x, n - 1);
      }
    } else {
      var next := fs.lookup(cur, steps[0].name);
      if fs.link(next.value).value && steps[0].follow {
        var text := fs.target(next.value);
        ErasePrefixed(text.value, rest);
        FindsDirectory(fs, From(text.value, cur), Prefixed(text.value, rest), k - 1, x, n - 1);
      } else {
        FindsDirectory(fs, next.value, rest, k, x, n - 1);
      }
    }
  }

  // ---- agreement ------------------------------------------------------------------------------------

  lemma {:induction false} PlanLast(comps: seq<Name>, last: bool)
    requires comps != []
    ensures Plan(comps, last) == Plan(comps[..|comps| - 1], true) + [Todo(comps[|comps| - 1], last)]
    decreases |comps|
  {
    var n := |comps| - 1;
    if n == 0 {
      assert |comps[1..]| == 0 && |comps[..0]| == 0;
    } else {
      var rest := comps[1..];
      PlanLast(rest, last);
      assert comps[..n][1..] == rest[..n - 1] && comps[..n][0] == comps[0];
    }
  }

  /** Following the last component makes a difference only if it is a link. */
  lemma FollowingLast(fs: Fs, cur: nat, comps: seq<Name>)
    ensures var (r, d) := Run(fs, cur, Plan(comps, false), 0);
            (r.Found? && fs.link(r.ino) == Ok(true)) || Run(fs, cur, Plan(comps, true), 0) == (r, d)
  {
    hide Comps, Plan;
    if comps == [] {
      NoPlan(comps);
    } else {
      var front, name := Plan(comps[..|comps| - 1], true), comps[|comps| - 1];
      PlanLast(comps, false);
      PlanLast(comps, true);
      RunSplit(fs, cur, front, [Todo(name, false)], 0);
      RunSplit(fs, cur, front, [Todo(name, true)], 0);
      var (e, d) := Run(fs, cur, front, 0);
      if e.Found? { OneMore(fs, e.ino, name, d); }
    }
  }

  lemma NoPlan(comps: seq<Name>)
    requires comps == []
    ensures Plan(comps, true) == Plan(comps, false) == []
  {
  }

  lemma OneMore(fs: Fs, cur: nat, name: Name, depth: nat)
    ensures var (r, d) := Run(fs, cur, [Todo(name, false)], depth);
            (r.Found? && fs.link(r.ino) == Ok(true)) || Run(fs, cur, [Todo(name, true)], depth) == (r, d)
  {
    hide Comps, Plan;
    var a, b := [Todo(name, false)], [Todo(name, true)];
    assert |a[1..]| == 0 && a[1..] == b[1..];
    var next := fs.lookup(cur, name);
    if next.Ok? { assert Run(fs, next.value, a[1..], depth) == (Found(next.value), depth); }
  }

  /** The walk and the standard agree: the same object, or none. */
  ghost predicate Agrees(fs: Fs, cwd: nat, path: seq<byte>, last: bool, r: End) {
    if r.Found? then exists k: nat :: Resolves(fs, cwd, path, last, k, r)
    else forall k: nat, x: nat :: !Resolves(fs, cwd, path, last, k, Found(x))
  }

  /** The path, or a link text at its end, asks for a directory. */
  ghost predicate AsksForDirectory(fs: Fs, cwd: nat, path: seq<byte>, last: bool) {
    Tail(path) || Demand(fs, From(path, cwd), Plan(Comps(path), last), 0, false)
  }

  /** With the flag the standard implies, the walk does as the standard says. */
  lemma AgreesWhenFollowed(fs: Fs, cwd: nat, path: seq<byte>, last: bool)
    requires Sane(fs) && path != [] && (Tail(path) ==> last)
    requires !Answer(fs, cwd, path, last).Loop?
    ensures var r := Answer(fs, cwd, path, last);
            Agrees(fs, cwd, path, last, r) <==> (r.Found? && AsksForDirectory(fs, cwd, path, last) ==> fs.dir(r.ino))
  {
    hide Comps, Plan, Tail, Run, Posix, Demand, Filenames, Steps, Erase, EndsHere;
    var cur, steps := From(path, cwd), Steps(Filenames(path), last);
    SameOrigin(path, cwd);
    PathSteps(path, last);
    var n, k, e := Simulated(fs, cur, steps, 0);
    if Tail(path) { AskedStays(fs, cur, Plan(Comps(path), last), 0); }
    forall k': nat, e' | Resolves(fs, cwd, path, last, k', e') ensures e' == e {
      var n' :| Posix(fs, cur, steps, k', e', n');
      OneOutcome(fs, cur, steps, k, e, n, k', e', n');
    }
    assert Resolves(fs, cwd, path, last, k, e);
  }

  /** `lstat` of a path that asks for a directory. */
  lemma AgreesOnTail(fs: Fs, cwd: nat, path: seq<byte>)
    requires Sane(fs) && path != [] && Tail(path) && !Answer(fs, cwd, path, false).Loop?
    ensures var r := Answer(fs, cwd, path, false);
            Agrees(fs, cwd, path, false, r) <==> (r.Found? ==> fs.dir(r.ino))
  {
    hide Comps, Plan, Run, Posix, Demand, Filenames, Steps, Erase, EndsHere, Tail;
    var cur, steps := From(path, cwd), Steps(Filenames(path), false);
    SameOrigin(path, cwd);
    var r := Answer(fs, cwd, path, false);
    PathSteps(path, false);
    FollowingLast(fs, cur, Comps(path));
    forall k: nat, x: nat | Resolves(fs, cwd, path, false, k, Found(x)) ensures fs.dir(x) {
      var n :| Posix(fs, cur, steps, k, Found(x), n);
      FindsDirectory(fs, cur, steps, k, x, n);
    }
    if r.Failed? || fs.dir(r.ino) {
      var n, k, e := Simulated(fs, cur, steps, 0);
      forall k': nat, e' | Resolves(fs, cwd, path, false, k', e') ensures e' == e {
        var n' :| Posix(fs, cur, steps, k', e', n');
        OneOutcome(fs, cur, steps, k, e, n, k', e', n');
      }
      assert Resolves(fs, cwd, path, false, k, e);
    }
  }

  /** Where `resolve` does what section 4.13 of POSIX.1-2017 XBD asks for: if it fails, the pathname has
      no object; if it finds one, it is the right one exactly if the path is not empty and, where
      the path or a link text at its end asks for a directory, the object is one. At the limit,
      the standard would follow more than 40 links too. */
  lemma PosixExact(fs: Fs, cwd: nat, path: seq<byte>, last: bool)
    requires Sane(fs)
    ensures var r := Answer(fs, cwd, path, last);
            && (!r.Loop? ==> (Agrees(fs, cwd, path, last, r) <==>
                 (r.Found? ==> path != [] && (AsksForDirectory(fs, cwd, path, last) ==> fs.dir(r.ino)))))
            && (r.Loop? ==> forall k: nat, e :: Resolves(fs, cwd, path, last, k, e) ==> k > MAX_SYMLOOP)
  {
    hide Comps, Plan, Run, Posix, Demand, Filenames, Steps, Erase, EndsHere, Tail;
    var r := Answer(fs, cwd, path, last);
    if path == [] {
      EmptyPathFinds(fs, cwd, last);
    } else if r.Loop? {
      var cur, steps := From(path, cwd), Steps(Filenames(path), last);
      SameOrigin(path, cwd);
      PathSteps(path, last);
      FollowingLast(fs, cur, Comps(path));
      forall k: nat, e | Resolves(fs, cwd, path, last, k, e) ensures k > MAX_SYMLOOP {
        var n :| Posix(fs, cur, steps, k, e, n);
        CutOff(fs, cur, steps, 0, k, e, n);
      }
    } else if Tail(path) && !last {
      AgreesOnTail(fs, cwd, path);
    } else {
      AgreesWhenFollowed(fs, cwd, path, last);
    }
  }

  /** The empty path is accepted and names the start. */
  lemma EmptyPathFinds(fs: Fs, cwd: nat, last: bool)
    ensures Answer(fs, cwd, [], last) == Found(cwd) && !Agrees(fs, cwd, [], last, Found(cwd))
  {
    CompsEmpty();
    NoPlan([]);
  }

  // ---- inputs on which they disagree ---------------------------------------------------------------

  const FILE: Name := [102]
  const LINK: Name := [108]

  /** A root with a file 11 called "f" and a link 12 called "l" to it. */
  function TwoNames(): Fs {
    Fs((d: nat, n: Name) => if d != ROOT then Err(NotDirectory) else if n == FILE then Ok(11) else if n == LINK then Ok(12) else Err(NotFound),
       (i: nat) => Ok(i == 12),
       (i: nat) => Ok(FILE),
       (i: nat) => i == ROOT)
  }

  lemma SlashPieces(name: Name)
    requires |name| == 1 && name[0] != SLASH
    ensures Pieces(name + [SLASH]) == [name]
  {
    var path := name + [SLASH];
    NoSlashHead(name);
    HeadConcat(name, [SLASH]);
    hide Head, Comps;
    assert path[..1] == name && |path[2..]| == 0;
    NoPieces(path[2..]);
  }

  lemma NoPieces(path: seq<byte>)
    requires |path| == 0
    ensures Pieces(path) == []
  {
  }

  lemma SlashPath(name: Name)
    requires |name| == 1 && name[0] != SLASH && name != DOT
    ensures Comps(name + [SLASH]) == [name] && Tail(name + [SLASH]) && !Absolute(name + [SLASH])
  {
    hide Head, Comps, Pieces;
    SlashPieces(name);
    CompsJoin(name, []);
    NoSlashHead(name);
    CompsEmpty();
    assert name + [SLASH] + [] == name + [SLASH];
    assert Filenames(name + [SLASH]) == [name, DOT];
  }

  /** "f/" finds the file, and `lstat` of "l/" the link itself. */
  lemma TrailingSlashIgnored(cwd: nat)
    requires cwd == ROOT
    ensures Sane(TwoNames())
    ensures Answer(TwoNames(), cwd, FILE + [SLASH], true) == Found(11) && !Agrees(TwoNames(), cwd, FILE + [SLASH], true, Found(11))
    ensures Answer(TwoNames(), cwd, LINK + [SLASH], false) == Found(12) && !Agrees(TwoNames(), cwd, LINK + [SLASH], false, Found(12))
  {
    hide Comps, Tail, Agrees, Absolute;
    var fs := TwoNames();
    assert FILE[0] == 102 && LINK[0] == 108 && DOT[0] == 46;
    SlashPath(FILE);
    SlashPath(LINK);
    OneName(fs, cwd, FILE, true);
    OneName(fs, cwd, LINK, false);
    PosixExact(fs, cwd, FILE + [SLASH], true);
    PosixExact(fs, cwd, LINK + [SLASH], false);
  }

  lemma OneName(fs: Fs, cur: nat, name: Name, last: bool)
    requires fs.lookup(cur, name).Ok? && (var i := fs.lookup(cur, name).value; fs.link(i).Ok? && !(fs.link(i).value && last))
    ensures Run(fs, cur, Plan([name], last), 0).0 == Found(fs.lookup(cur, name).value)
  {
    var one := [name];
    assert |one[1..]| == 0 && Plan(one[1..], last) == [];
    var p := Plan(one, last);
    assert p[0] == Todo(name, last) && |p[1..]| == 0;
  }
}
