/** A run that brings a link count to its limit, although `mkdir` refuses long before: directories are
    made elsewhere and moved. */
module NameRuns {
  import opened Common
  import opened DirBlock
  import opened Directory
  import opened NameTree
  import opened NameRename
  import opened NameSpec
  import opened NameFacts

  const NAME_S: Name := [115]
  const COUNT: nat := 70000

  /** The name of subdirectory number `j`: three letters or signs between them. */
  function Numbered(j: nat): Name
    requires j < 125_000
  {
    [65 + j / 2500, 65 + j / 50 % 50, 65 + j % 50]
  }

  lemma Digits(j: nat)
    ensures j == j / 2500 * 2500 + j / 50 % 50 * 50 + j % 50
  {
    var q := j / 50;
    assert j == q * 50 + j % 50 && q == q / 50 * 50 + q % 50;
    assert q / 50 == j / 2500;
  }

  lemma NumberedApart(i: nat, j: nat)
    requires i < 125_000 && j < 125_000
    ensures Numbered(i) == Numbered(j) ==> i == j
    ensures !Dots(Numbered(i)) && Numbered(i) != NAME_S && Numbered(i) != NAME_D && ValidateName(Numbered(i)).None?
  {
    var a, b := Numbered(i), Numbered(j);
    assert |a| == 3;
    Digits(i);
    Digits(j);
    if a == b { assert a[0] == b[0] && a[1] == b[1] && a[2] == b[2]; }
    assert forall x <- a :: x >= 65;
  }

  lemma NameSValid()
    ensures ValidateName(NAME_S).None? && !Dots(NAME_S) && NAME_S != NAME_D
  {
    assert NAME_S[0] == 115 && NAME_D[0] == 100 && DOT[0] == 46 && |DOT| == 1 && |DOTDOT| == 2;
  }

  /** The root has `k` subdirectories beside the empty "d". */
  ghost predicate Wide(t: Table, f: set<nat>, k: nat) {
    && k <= COUNT && Inv(t, f, 11) && WideNodes(t, k) && forall x: nat :: 12 + k <= x <= COUNT ==> x in f
  }

  ghost predicate WideNodes(t: Table, k: nat)
    requires k <= COUNT
  {
    && ROOT in t && t[ROOT].Dir? && t[ROOT].links == 3 + k && NAME_S !in t[ROOT].entries && NAME_D in t[ROOT].entries && t[ROOT].entries[NAME_D] == 11
    && 11 in t && t[11] == Dir(map[DOT := 11, DOTDOT := ROOT], 2)
    && forall j :: k <= j <= COUNT ==> Numbered(j) !in t[ROOT].entries
  }

  /** `mkdir d/s` with inode `i`, then `rename d/s` to `n` in the root; both are accepted. */
  ghost predicate MadeAndMoved(t: Table, f: set<nat>, t': Table, f': set<nat>, i: nat, n: Name) {
    && i in f && f' == f - {i} && IsDir(t, 11) && i != 11 && CreateRefused(t, 11, NAME_S, true).None?
    && var t1 := Created(t, 11, NAME_S, i, true);
       RenameRefused(t1, 11, NAME_S, ROOT, n).None? && Movable(t1, 11, NAME_S, ROOT, n, i) && t' == Moved(t1, 11, NAME_S, ROOT, n)
  }

  type State = (Table, set<nat>)

  ghost predicate StepAt(run: seq<State>, j: nat)
    requires j + 1 < |run| <= COUNT
  {
    MadeAndMoved(run[j].0, run[j].1, run[j + 1].0, run[j + 1].1, 12 + j, Numbered(j))
  }

  /** One such step after another. */
  ghost predicate IsRun(run: seq<State>) {
    0 < |run| <= COUNT && forall j: nat :: j < |run| - 1 ==> StepAt(run, j)
  }

  lemma MadeS(t: Table, f: set<nat>, k: nat, n: Name)
    requires Wide(t, f, k) && k < COUNT - 12 && n !in t[ROOT].entries && !Dots(n) && ValidateName(n).None?
    ensures 12 + k in f && CreateRefused(t, 11, NAME_S, true).None?
    ensures var t1 := Created(t, 11, NAME_S, 12 + k, true);
            && Inv(t1, f - {12 + k}, 11) && t1[ROOT] == t[ROOT] && LiveDir(t1, 12 + k)
            && t1[11] == Dir(map[DOT := 11, DOTDOT := ROOT, NAME_S := 12 + k], 3)
            && RenameRefused(t1, 11, NAME_S, ROOT, n).None? && Movable(t1, 11, NAME_S, ROOT, n, 12 + k) && !Inside(t1, ROOT, 12 + k)
  {
    hide Inv, Created, ValidateName, Inside;
    NameSValid();
    Letters();
    CreateKeepsTree(t, f, 11, 11, NAME_S, 12 + k, true);
    CreatedNodes(t, 11, NAME_S, 12 + k, true, ROOT);
    InsideUp(Created(t, 11, NAME_S, 12 + k, true), ROOT, 12 + k);
  }

  lemma WideStep(t: Table, f: set<nat>, k: nat)
    requires Wide(t, f, k) && k < 65532
    ensures Movable(Created(t, 11, NAME_S, 12 + k, true), 11, NAME_S, ROOT, Numbered(k), 12 + k)
    ensures var t' := Moved(Created(t, 11, NAME_S, 12 + k, true), 11, NAME_S, ROOT, Numbered(k));
            MadeAndMoved(t, f, t', f - {12 + k}, 12 + k, Numbered(k)) && Wide(t', f - {12 + k}, k + 1)
  {
    hide Inv, Created, Moved, Numbered, RenameRefused, CreateRefused, ValidateName, Inside;
    NumberedApart(k, k);
    MadeS(t, f, k, Numbered(k));
    var t1 := Created(t, 11, NAME_S, 12 + k, true);
    MoveExact(t1, f - {12 + k}, 11, 11, NAME_S, ROOT, Numbered(k), 12 + k);
    WideMoved(t, t1, k);
  }

  lemma WideMoved(t: Table, t1: Table, k: nat)
    requires k < 65532 && WideNodes(t, k) && ROOT in t1 && t1[ROOT] == t[ROOT] && 11 in t1 && t1[11] == Dir(map[DOT := 11, DOTDOT := ROOT, NAME_S := 12 + k], 3)
    requires LiveDir(t1, 12 + k) && Movable(t1, 11, NAME_S, ROOT, Numbered(k), 12 + k)
    ensures WideNodes(Moved(t1, 11, NAME_S, ROOT, Numbered(k)), k + 1)
  {
    hide Numbered;
    NameSValid();
    Letters();
    NumberedApart(k, k);
    var t' := Moved(t1, 11, NAME_S, ROOT, Numbered(k));
    assert t'[ROOT] == Dir(t[ROOT].entries[Numbered(k) := 12 + k], 4 + k);
    assert t'[11].entries == map[DOT := 11, DOTDOT := ROOT];
    forall j | k + 1 <= j <= COUNT ensures Numbered(j) !in t'[ROOT].entries { NumberedApart(j, k); }
  }

  lemma WideStart()
    ensures IsDir(Formatted(COUNT), ROOT) && CreateRefused(Formatted(COUNT), ROOT, NAME_D, true).None? && 11 in FreeInodes(11, COUNT)
    ensures Wide(Created(Formatted(COUNT), ROOT, NAME_D, 11, true), FreeInodes(11, COUNT) - {11}, 0)
  {
    hide Inv, Formatted, FreeInodes, Created, Numbered;
    FormattedInv(COUNT, 11);
    FormattedAt(COUNT, ROOT);
    FormattedAt(COUNT, 11);
    forall x: nat ensures x in FreeInodes(11, COUNT) <==> 11 <= x <= COUNT { InFreeInodes(11, COUNT, x); }
    Letters();
    NameSValid();
    CreateKeepsTree(Formatted(COUNT), FreeInodes(11, COUNT), 11, ROOT, NAME_D, 11, true);
    CreatedNodes(Formatted(COUNT), ROOT, NAME_D, 11, true, ROOT);
    forall j | 0 <= j <= COUNT ensures Numbered(j) !in map[DOT := ROOT, DOTDOT := ROOT, NAME_D := 11] { NumberedApart(j, j); }
  }

  lemma {:induction false} Widened(t: Table, f: set<nat>, k: nat) returns (run: seq<State>)
    requires Wide(t, f, 0) && k <= 65532
    ensures IsRun(run) && |run| == k + 1 && run[0] == (t, f) && Wide(run[k].0, run[k].1, k)
    decreases k
  {
    hide Wide, MadeAndMoved, Numbered;
    if k == 0 {
      run := [(t, f)];
    } else {
      var r := Widened(t, f, k - 1);
      var t', f' := NextWide(r[k - 1].0, r[k - 1].1, k - 1);
      run := r + [(t', f')];
      forall j: nat | j < |run| - 1 ensures StepAt(run, j) {
        if j < k - 1 { assert StepAt(r, j) && run[j] == r[j] && run[j + 1] == r[j + 1]; }
      }
    }
  }

  lemma NextWide(t: Table, f: set<nat>, k: nat) returns (t': Table, f': set<nat>)
    requires Wide(t, f, k) && k < 65532
    ensures MadeAndMoved(t, f, t', f', 12 + k, Numbered(k)) && Wide(t', f', k + 1)
  {
    hide Wide, MadeAndMoved, Numbered, Moved;
    WideStep(t, f, k);
    MadeDirThere(t, f, k);
    t', f' := Moved(Created(t, 11, NAME_S, 12 + k, true), 11, NAME_S, ROOT, Numbered(k)), f - {12 + k};
  }

  lemma MadeDirThere(t: Table, f: set<nat>, k: nat)
    requires Wide(t, f, k)
    ensures IsDir(t, 11)
  {
    hide Inv;
  }

  /** `mkdir d`, then 65,532 times `mkdir d/s` and `rename` to a new name in the root, which then has
      65,535 links. One more such pair is accepted, and the count of the root stays behind. */
  lemma RenameIntoFullDir() returns (run: seq<State>, t': Table)
    ensures IsDir(Formatted(COUNT), ROOT) && CreateRefused(Formatted(COUNT), ROOT, NAME_D, true).None?
    ensures IsRun(run) && |run| == 65533 && run[0] == (Created(Formatted(COUNT), ROOT, NAME_D, 11, true), FreeInodes(11, COUNT) - {11})
    ensures var (t, f) := run[65532];
            Inv(t, f, 11) && Links(t, ROOT) == LINKS_CAP && MadeAndMoved(t, f, t', f - {65544}, 65544, NAME_S) && !Inv(t', f - {65544}, 11)
  {
    hide Inv, Formatted, FreeInodes, Created, Moved, Numbered, IsRun, RenameRefused, CreateRefused, ValidateName, Inside;
    WideStart();
    run := Widened(Created(Formatted(COUNT), ROOT, NAME_D, 11, true), FreeInodes(11, COUNT) - {11}, 65532);
    var (t, f) := run[65532];
    NameSValid();
    MadeS(t, f, 65532, NAME_S);
    var t1 := Created(t, 11, NAME_S, 65544, true);
    MoveExact(t1, f - {65544}, 11, 11, NAME_S, ROOT, NAME_S, 65544);
    t' := Moved(t1, 11, NAME_S, ROOT, NAME_S);
  }
}
