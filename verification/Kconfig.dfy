/** Configuration symbols with dependencies: normalisation, toggling, and the saved file. */
module Kconfig {
  import opened Common


  type Symbol = string
  /** For each symbol its groups of dependencies; all of them must be on. */
  type Depends = map<Symbol, seq<seq<Symbol>>>

  // ---- closed sets ------------------------------------------------------------------------------

  predicate GroupOn(group: seq<Symbol>, on: set<Symbol>) {
    forall d <- group :: d in on
  }

  /** Everything `n` depends on is on. A dependency that is no symbol is never on. */
  predicate DependencyOk(deps: Depends, on: set<Symbol>, n: Symbol) {
    n in deps ==> forall g <- deps[n] :: GroupOn(g, on)
  }

  predicate Closed(deps: Depends, on: set<Symbol>) {
    forall n <- on :: DependencyOk(deps, on, n)
  }

  /** `g` is the greatest dependency-closed subset of `on`. */
  ghost predicate Greatest(deps: Depends, on: set<Symbol>, g: set<Symbol>) {
    g <= on && Closed(deps, g) && forall c :: c <= on && Closed(deps, c) ==> c <= g
  }

  lemma MoreOn(deps: Depends, a: set<Symbol>, b: set<Symbol>, n: Symbol)
    requires a <= b && DependencyOk(deps, a, n)
    ensures DependencyOk(deps, b, n)
  {
    if n in deps {
      forall g | g in deps[n] ensures GroupOn(g, b) { assert GroupOn(g, a); }
    }
  }

  /** The greatest closed subset is unique, so no order of visits can matter. */
  lemma GreatestUnique(deps: Depends, on: set<Symbol>, g: set<Symbol>, h: set<Symbol>)
    requires Greatest(deps, on, g) && Greatest(deps, on, h)
    ensures g == h
  {
  }

  /** A closed set is its own greatest closed subset: normalising twice changes nothing. */
  lemma ClosedIsGreatest(deps: Depends, on: set<Symbol>)
    ensures Closed(deps, on) <==> Greatest(deps, on, on)
  {
  }

  // ---- what goes when a symbol goes ---------------------------------------------------------------

  predicate DependsOn(deps: Depends, m: Symbol, d: Symbol) {
    m in deps && exists g <- deps[m] :: d in g
  }

  /** A chain of `k` dependencies leads from `m` to `n`. */
  ghost predicate Needs(deps: Depends, m: Symbol, n: Symbol, k: nat)
    decreases k
  {
    if k == 0 then m == n
    else exists d :: DependsOn(deps, m, d) && Needs(deps, d, n, k - 1)
  }

  ghost predicate NeedsSome(deps: Depends, m: Symbol, n: Symbol) {
    exists k: nat :: Needs(deps, m, n, k)
  }

  lemma DependencyOn(deps: Depends, on: set<Symbol>, m: Symbol, d: Symbol)
    requires DependencyOk(deps, on, m) && DependsOn(deps, m, d)
    ensures d in on
  {
    var g :| g in deps[m] && d in g;
    assert GroupOn(g, on);
  }

  lemma {:induction false} ChainOn(deps: Depends, g: set<Symbol>, m: Symbol, n: Symbol, k: nat)
    requires Closed(deps, g) && m in g && Needs(deps, m, n, k)
    ensures n in g
    decreases k
  {
    if k > 0 {
      var d :| DependsOn(deps, m, d) && Needs(deps, d, n, k - 1);
      DependencyOn(deps, g, m, d);
      ChainOn(deps, g, d, n, k - 1);
    }
  }

  lemma NeedsStep(deps: Depends, m: Symbol, d: Symbol, n: Symbol)
    requires DependsOn(deps, m, d) && NeedsSome(deps, d, n)
    ensures NeedsSome(deps, m, n)
  {
    var k: nat :| Needs(deps, d, n, k);
    assert Needs(deps, m, n, k + 1);
  }

  lemma OthersClosed(deps: Depends, on: set<Symbol>, n: Symbol, c: set<Symbol>)
    requires Closed(deps, on) && forall m :: m in c <==> m in on && !NeedsSome(deps, m, n)
    ensures Closed(deps, c)
  {
    hide NeedsSome;
    forall m | m in c ensures DependencyOk(deps, c, m) {
      assert DependencyOk(deps, on, m);
      if m in deps {
        forall g | g in deps[m] ensures GroupOn(g, c) {
          assert GroupOn(g, on);
          forall d | d in g ensures d in c {
            assert DependsOn(deps, m, d);
            if NeedsSome(deps, d, n) { NeedsStep(deps, m, d, n); }
          }
        }
      }
    }
  }

  /** Switching one symbol off in a closed set switches off exactly the symbols that need it,
      directly or through others. */
  lemma SwitchOffExact(deps: Depends, on: set<Symbol>, n: Symbol, g: set<Symbol>)
    requires Closed(deps, on) && Greatest(deps, on - {n}, g)
    ensures forall m :: m in g <==> m in on && !NeedsSome(deps, m, n)
  {
    var c := set m | m in on && !NeedsSome(deps, m, n);
    OthersClosed(deps, on, n, c);
    assert Needs(deps, n, n, 0);
    assert c <= on - {n};
    forall m | m in g ensures !NeedsSome(deps, m, n) {
      if NeedsSome(deps, m, n) {
        var k: nat :| Needs(deps, m, n, k);
        ChainOn(deps, g, m, n, k);
      }
    }
  }

  // ---- the symbols -------------------------------------------------------------------------------

  class Symbols {
    /** The names in the order they are visited. */
    const order: seq<Symbol>
    const deps: Depends
    const defaults: map<Symbol, bool>
    var value: map<Symbol, bool>

    ghost predicate Valid()
      reads this
    {
      (forall n :: n in order <==> n in value) && (forall n :: n in order <==> n in defaults)
    }

    function On(): set<Symbol>
      reads this
    {
      set n | n in value && value[n]
    }

    constructor (order: seq<Symbol>, deps: Depends, defaults: map<Symbol, bool>)
      requires forall n :: n in order <==> n in defaults
      ensures Valid() && this.order == order && this.deps == deps && this.defaults == defaults && On() == {}
    {
      this.order, this.deps, this.defaults := order, deps, defaults;
      value := map n | n in defaults :: false;
    }

    method SwitchOff(n: Symbol)
      requires Valid() && n in value
      modifies this
      ensures Valid() && value.Keys == old(value.Keys) && On() == old(On()) - {n} && value == old(value)[n := false]
    {
      value := value[n := false];
    }

    /** Computes the greatest dependency-closed subset of what is on, for any dependencies, cyclic
        or not, and any order of visits. */
    method Normalize()
      requires Valid()
      modifies this
      ensures Valid() && Greatest(deps, old(On()), On()) && value.Keys == old(value.Keys)
    {
      ghost var on := On();
      var changed := true;
      while changed
        invariant Valid() && value.Keys == old(value.Keys)
        invariant On() <= on && KeepsClosed(deps, on, On())
        invariant !changed ==> Closed(deps, On())
        decreases |On()|, changed
      {
        changed := Pass(on);
      }
    }

    /** One round over the symbols. */
    method Pass(ghost on: set<Symbol>) returns (changed: bool)
      requires Valid() && On() <= on && KeepsClosed(deps, on, On())
      modifies this
      ensures Valid() && value.Keys == old(value.Keys) && On() <= old(On()) && KeepsClosed(deps, on, On())
      ensures if changed then |On()| < |old(On())| else On() == old(On()) && Closed(deps, On())
    {
      changed := false;
      ghost var start := On();
      for i := 0 to |order|
        invariant Valid() && value.Keys == old(value.Keys) && On() <= start && KeepsClosed(deps, on, On())
        invariant if changed then |On()| < |start| else On() == start
        invariant !changed ==> forall k :: 0 <= k < i && order[k] in On() ==> DependencyOk(deps, On(), order[k])
      {
        var n := order[i];
        if value[n] && !DependencyOk(deps, On(), n) {
          Drop(deps, on, On(), n);
          Smaller(On(), n);
          SwitchOff(n);
          changed := true;
        }
      }
      if !changed {
        forall n | n in On() ensures DependencyOk(deps, On(), n) {
          var k :| 0 <= k < |order| && order[k] == n;
        }
      }
    }

    /** `toggle`: a symbol goes on only if its dependencies are on; with a symbol go exactly those
        that need it. The set stays closed. */
    method Toggle(n: Symbol)
      requires Valid() && n in value && Closed(deps, On())
      modifies this
      ensures Valid() && Closed(deps, On())
      ensures n in old(On()) ==> forall m :: m in On() <==> m in old(On()) && !NeedsSome(deps, m, n)
      ensures n !in old(On()) ==> On() == old(On()) + (if DependencyOk(deps, old(On()), n) then {n} else {})
    {
      ghost var on := On();
      if value[n] {
        SwitchOff(n);
        Normalize();
        SwitchOffExact(deps, on, n, On());
      } else if DependencyOk(deps, On(), n) {
        value := value[n := true];
        assert On() == on + {n};
        forall m | m in On() ensures DependencyOk(deps, On(), m) { MoreOn(deps, on, On(), m); }
      }
    }

    /** `load_config` on the lines of the saved file. */
    method Load(lines: seq<string>)
      requires Valid()
      modifies this
      ensures Valid() && Greatest(deps, OnIn(Read(defaults, lines)), On())
    {
      hide Greatest, Apply;
      value := defaults;
      for i := 0 to |lines|
        invariant value.Keys == defaults.Keys && Read(value, lines[i..]) == Read(defaults, lines)
      {
        ApplyKeys(value, lines[i]);
        value := Apply(value, lines[i]);
        assert lines[i..][1..] == lines[i + 1..];
      }
      assert lines[|lines|..] == [];
      assert On() == OnIn(value);
      Normalize();
    }

    /** `save_config`; `names` are the symbols in sorted order. */
    method Save(names: seq<Symbol>) returns (lines: seq<string>)
      requires Valid() && forall n :: n in names <==> n in value
      ensures lines == HEADER + Lines(names, value)
    {
      hide Line;
      lines := HEADER;
      for i := 0 to |names|
        invariant lines + Lines(names[i..], value) == HEADER + Lines(names, value)
      {
        assert names[i..][1..] == names[i + 1..];
        lines := lines + [Line(names[i], value[names[i]])];
      }
      assert names[|names|..] == [];
    }

    /** Saving and loading again gives back the same configuration, if it was closed and its names
        are words. */
    method SaveAndLoad(names: seq<Symbol>)
      requires Valid() && forall n :: n in names <==> n in value
      modifies this
      ensures Valid() && Closed(deps, On())
      ensures Closed(deps, old(On())) && (forall n <- names :: Word(n)) ==> On() == old(On())
    {
      hide Read, Lines, Word, Closed;
      ghost var on, saved := On(), value;
      var lines := Save(names);
      SavedReadsBack(names, defaults, value);
      Load(lines);
      if Closed(deps, on) && forall n <- names :: Word(n) {
        ghost var r := Read(defaults, lines);
        assert OnIn(r) == on;
        ClosedIsGreatest(deps, on);
        GreatestUnique(deps, on, On(), on);
      }
    }
  }

  // ---- the saved file -----------------------------------------------------------------------------

  predicate WordChar(c: char) {
    'A' <= c <= 'Z' || 'a' <= c <= 'z' || '0' <= c <= '9' || c == '_'
  }

  predicate Word(s: string) {
    s != [] && forall c <- s :: WordChar(c)
  }

  /** What stands between a prefix and a suffix. */
  function Between(line: string, pre: string, post: string): Option<string> {
    if |line| >= |pre| + |post| && line[..|pre|] == pre && line[|line| - |post|..] == post
    then Some(line[|pre|..|line| - |post|])
    else None
  }

  function ReadWord(line: string, pre: string, post: string, v: bool): Option<(Symbol, bool)> {
    match Between(line, pre, post)
    case Some(w) => if Word(w) then Some((w, v)) else None
    case None => None
  }

  const SET := "CONFIG_"
  const UNSET := "# CONFIG_"
  const NOT_SET := " is not set"

  /** The two patterns `load_config` looks for, on a line without surrounding blanks. */
  function ParseLine(line: string): Option<(Symbol, bool)> {
    var y := ReadWord(line, SET, "=y", true);
    if y.Some? then y
    else
      var n := ReadWord(line, SET, "=n", false);
      if n.Some? then n else ReadWord(line, UNSET, NOT_SET, false)
  }

  /** A line of the saved file. */
  function Line(n: Symbol, v: bool): string {
    if v then SET + n + "=y" else UNSET + n + NOT_SET
  }

  lemma BetweenConcat(pre: string, mid: string, post: string)
    ensures Between(pre + mid + post, pre, post) == Some(mid)
  {
    var line := pre + mid + post;
    assert line[..|pre|] == pre;
    assert line[|line| - |post|..] == post;
    assert line[|pre|..|line| - |post|] == mid;
  }

  lemma BetweenParts(line: string, pre: string, post: string, mid: string)
    ensures Between(line, pre, post) == Some(mid) <==> line == pre + mid + post
  {
    BetweenConcat(pre, mid, post);
    if Between(line, pre, post) == Some(mid) { assert line == line[..|pre|] + mid + line[|line| - |post|..]; }
  }

  lemma ReadWordExact(line: string, pre: string, post: string, v: bool, n: Symbol, w: bool)
    ensures ReadWord(line, pre, post, v) == Some((n, w)) <==> Word(n) && w == v && line == pre + n + post
  {
    hide Word, Between;
    BetweenParts(line, pre, post, n);
  }

  /** What a line sets: a word after CONFIG_ is on with "=y" and off with "=n" or in the comment form; no other line sets anything. */
  lemma LineMeans(line: string, n: Symbol, v: bool)
    ensures ParseLine(line) == Some((n, v)) <==>
            && Word(n)
            && if v then line == "CONFIG_" + n + "=y" else line == "CONFIG_" + n + "=n" || line == "# CONFIG_" + n + " is not set"
  {
    hide Word, ReadWord;
    ReadWordExact(line, SET, "=y", true, n, v);
    ReadWordExact(line, SET, "=n", false, n, v);
    ReadWordExact(line, UNSET, NOT_SET, false, n, v);
    var y, no := ReadWord(line, SET, "=y", true), ReadWord(line, SET, "=n", false);
    if y.Some? {
      var (m, w) := y.value;
      ReadWordExact(line, SET, "=y", true, m, w);
      OneForm(line, m, n);
    }
    if no.Some? {
      var (m, w) := no.value;
      ReadWordExact(line, SET, "=n", false, m, w);
      OneForm(line, m, n);
    }
  }

  /** A line has at most one of the three forms. */
  lemma OneForm(line: string, m: Symbol, n: Symbol)
    ensures line == SET + m + "=y" ==> line != SET + n + "=n" && line != UNSET + n + NOT_SET
    ensures line == SET + m + "=n" ==> line != SET + n + "=y" && line != UNSET + n + NOT_SET
  {
    if line == SET + m + "=y" || line == SET + m + "=n" { assert line[0] == 'C'; }
    if line == SET + m + "=y" { assert line[|line| - 1] == 'y'; }
    if line == SET + m + "=n" { assert line[|line| - 1] == 'n'; }
    if line == SET + n + "=y" { assert line[|line| - 1] == 'y'; }
    if line == SET + n + "=n" { assert line[|line| - 1] == 'n'; }
    if line == UNSET + n + NOT_SET { assert line[0] == '#'; }
  }

  /** A saved line reads back as written, exactly if the name is made of word characters. */
  lemma LineParses(n: Symbol, v: bool)
    ensures ParseLine(Line(n, v)) == if Word(n) then Some((n, v)) else None
  {
    hide Word;
    var line := Line(n, v);
    if v {
      BetweenConcat(SET, n, "=y");
      assert line[|line| - 1] == 'y' && "=n"[1] == 'n';
      assert line[|line| - 2..][1] == 'y';
      assert line[0] == 'C' && UNSET[0] == '#';
      assert line[..|UNSET|][0] == 'C' || |line| < |UNSET|;
    } else {
      BetweenConcat(UNSET, n, NOT_SET);
      assert line[0] == '#' && SET[0] == 'C';
      assert line[..|SET|][0] == '#';
    }
  }

  /** A later line overrides an earlier one; lines about unknown names are skipped. */
  function Apply(values: map<Symbol, bool>, line: string): map<Symbol, bool> {
    match ParseLine(line)
    case Some((n, v)) => if n in values then values[n := v] else values
    case None => values
  }

  function Read(values: map<Symbol, bool>, lines: seq<string>): map<Symbol, bool> {
    if lines == [] then values else Read(Apply(values, lines[0]), lines[1..])
  }

  lemma {:induction false} ReadConcat(values: map<Symbol, bool>, a: seq<string>, b: seq<string>)
    ensures Read(values, a + b) == Read(Read(values, a), b)
    decreases |a|
  {
    hide Apply;
    if a == [] {
      assert a + b == b;
    } else {
      assert (a + b)[1..] == a[1..] + b;
      ReadConcat(Apply(values, a[0]), a[1..], b);
    }
  }

  function Lines(names: seq<Symbol>, values: map<Symbol, bool>): seq<string>
    requires forall n <- names :: n in values
  {
    if names == [] then [] else [Line(names[0], values[names[0]])] + Lines(names[1..], values)
  }

  const BAR := "#"
  // in two parts, the first of which already shows that the line names no symbol
  const NOTE := "# Auto" + "matically generated by make menuconfig / olddefconfig."
  const HEADER := [BAR, NOTE, BAR]

  /** The values after the saved lines have been read over the defaults. */
  ghost predicate ReadBack(names: seq<Symbol>, start: map<Symbol, bool>, saved: map<Symbol, bool>, r: map<Symbol, bool>) {
    && r.Keys == start.Keys
    && forall n <- r :: r[n] == if n in names && n in saved && Word(n) then saved[n] else start[n]
  }

  lemma ApplyLine(values: map<Symbol, bool>, n: Symbol, v: bool)
    ensures Apply(values, Line(n, v)) == if Word(n) && n in values then values[n := v] else values
  {
    hide ParseLine, Line, Word;
    LineParses(n, v);
  }

  lemma {:induction false} ReadLines(names: seq<Symbol>, start: map<Symbol, bool>, saved: map<Symbol, bool>)
    requires forall n <- names :: n in saved
    ensures ReadBack(names, start, saved, Read(start, Lines(names, saved)))
    decreases |names|
  {
    hide Apply, Line, Word;
    if names != [] {
      var n, rest := names[0], names[1..];
      var lines := Lines(names, saved);
      assert lines[1..] == Lines(rest, saved);
      var next := Apply(start, Line(n, saved[n]));
      ApplyLine(start, n, saved[n]);
      ReadLines(rest, next, saved);
      assert forall m :: m in names <==> m == n || m in rest;
    }
  }

  lemma HeaderSkipped(values: map<Symbol, bool>)
    ensures Read(values, HEADER) == values
  {
    hide ParseLine;
    assert NOTE[0] == "# Auto"[0] && NOTE[2] == "# Auto"[2];
    NoSymbol(BAR);
    NoSymbol(NOTE);
    assert HEADER[1..] == [NOTE, BAR] && [NOTE, BAR][1..] == [BAR] && [BAR][1..] == [];
    assert Read(values, [BAR]) == values;
    assert Read(values, [NOTE, BAR]) == values;
  }

  lemma NoSymbol(line: string)
    requires line != [] && line[0] == '#' && (|line| < 3 || line[2] != 'C')
    ensures ParseLine(line).None?
  {
    hide Word;
    if |line| >= |SET| { assert line[..|SET|][0] == '#' && SET[0] == 'C'; }
    if |line| >= |UNSET| { assert line[..|UNSET|][2] == line[2] && UNSET[2] == 'C'; }
  }

  function OnIn(values: map<Symbol, bool>): set<Symbol> {
    set n | n in values && values[n]
  }

  /** What a saved configuration loads as, for all names: the symbols whose names are words keep
      their values, the others fall back to their defaults, and then the set is normalised. */
  lemma SavedReadsBack(names: seq<Symbol>, defaults: map<Symbol, bool>, saved: map<Symbol, bool>)
    requires (forall n <- names :: n in saved) && (forall n :: n in names <==> n in defaults)
    ensures ReadBack(names, defaults, saved, Read(defaults, HEADER + Lines(names, saved)))
  {
    hide Read, Lines, Word;
    ReadConcat(defaults, HEADER, Lines(names, saved));
    HeaderSkipped(defaults);
    ReadLines(names, defaults, saved);
  }

  /** No closed subset of `on` has lost anything. */
  ghost predicate KeepsClosed(deps: Depends, on: set<Symbol>, now: set<Symbol>) {
    forall c :: c <= on && Closed(deps, c) ==> c <= now
  }

  lemma Drop(deps: Depends, on: set<Symbol>, now: set<Symbol>, n: Symbol)
    requires KeepsClosed(deps, on, now) && !DependencyOk(deps, now, n)
    ensures KeepsClosed(deps, on, now - {n})
  {
    forall c | c <= on && Closed(deps, c) ensures c <= now - {n} {
      if n in c { MoreOn(deps, c, now, n); }
    }
  }

  lemma ApplyKeys(values: map<Symbol, bool>, line: string)
    ensures Apply(values, line).Keys == values.Keys
  {
  }

  lemma Smaller(s: set<Symbol>, n: Symbol)
    requires n in s
    ensures |s - {n}| < |s|
  {
  }
}
