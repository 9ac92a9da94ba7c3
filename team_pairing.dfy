/**
 * The table-tennis roster puzzle (practice/case22.py).
 *
 * Team a/b/c meets team x/y/z; a will not play x, and c will play neither x
 * nor z. The script's first loop (`for a in team_2`) has an empty body apart
 * from a `continue`, so all it does is leave `a` bound to the last member of
 * `team_2`. The `b` and `c` loops are not nested inside it: they run once,
 * with that `a`, keep the opponents that differ from `a` and from each other
 * and that pass c's exclusion list, and print each surviving roster.
 *
 * The printed rosters are modelled as a returned sequence of triples. The two
 * loops are specified by two "pass" functions, as in the digit exercise: the
 * rosters printed after a loop has looked at a prefix of the team.
 */
module TeamPairing {

  /**
   * One printed roster. The fields are the players a, b and c of team_1
   * (a, b, c), each holding the member of team_2 that player meets.
   */
  datatype Pairing = Pairing(a: char, b: char, c: char)

  const Team2: seq<char> := ['x', 'y', 'z']

  /** The opponents c refuses to play. */
  const ExcludedForC: seq<char> := ['x', 'z']

  /** The module name that the header guard compares against (note the third trailing underscore). */
  const GuardName: string := "__main___"

  /** What the innermost loop (`for c in team_2`) has printed for fixed a and b after looking at t[..k]. */
  function CPass(t: seq<char>, a: char, b: char, k: nat): seq<Pairing>
    requires k <= |t|
  {
    if k == 0 then []
    else if t[k - 1] != a && t[k - 1] != b && t[k - 1] !in ExcludedForC then CPass(t, a, b, k - 1) + [Pairing(a, b, t[k - 1])]
    else CPass(t, a, b, k - 1)
  }

  /** What the `for b in team_2` loop has printed for a fixed a after looking at t[..j]. */
  function BPass(t: seq<char>, a: char, j: nat): seq<Pairing>
    requires j <= |t|
  {
    if j == 0 then []
    else if t[j - 1] == a then BPass(t, a, j - 1)
    else BPass(t, a, j - 1) + CPass(t, a, t[j - 1], |t|)
  }

  /** Every roster the `b`/`c` loops print over team t when `a` is bound to the given opponent. */
  function Printed(t: seq<char>, a: char): seq<Pairing> {
    BPass(t, a, |t|)
  }

  /**
   * A roster the `b`/`c` loops may print: player a's opponent is the given
   * one, b's and c's come from t, the three differ, and c's is not excluded.
   */
  ghost predicate Admissible(t: seq<char>, a: char, p: Pairing) {
    && p.a == a && p.b in t && p.c in t
    && p.a != p.b && p.a != p.c && p.b != p.c
    && p.c !in ExcludedForC
  }

  /**
   * The puzzle as stated in the comment at the head of the script: every
   * player of the first team gets a different member of team_2, a does not
   * play x, and c plays neither x nor z.
   */
  ghost predicate PuzzleSolution(p: Pairing) {
    && p.a in Team2 && p.b in Team2 && p.c in Team2
    && p.a != p.b && p.a != p.c && p.b != p.c
    && p.a != 'x' && p.c != 'x' && p.c != 'z'
  }

  // ---------------------------------------------------------------------------
  // The script
  // ---------------------------------------------------------------------------

  /**
   * The whole script: the header guard, then the module-level loops. Returns
   * whether the guard's banner is printed and the rosters that are printed.
   * Python binds `__name__` to the given module name.
   */
  method Run(moduleName: string) returns (banner: bool, printed: seq<Pairing>)
    ensures banner <==> moduleName == GuardName
    ensures moduleName == "__main__" ==> !banner
    ensures printed == [Pairing('z', 'x', 'y')]
    ensures forall p :: p in printed ==> PuzzleSolution(p)
  {
    banner := moduleName == GuardName;
    var a := FirstLoop();
    printed := MatchLoops(a);
    ScriptOutput();
  }

  /** The first loop: its `continue` skips nothing that follows, so `a` ends as the last member of team_2. */
  method FirstLoop() returns (a: char)
    ensures a == Team2[|Team2| - 1] == 'z'
  {
    var team2 := Team2;
    a :| true;  // unbound in Python until the first iteration; any value stands for that
    for i := 0 to |team2|
      invariant 0 < i ==> a == team2[i - 1]
    {
      a := team2[i];
      if a == 'x' {
        continue;
      }
    }
  }

  /** The `b` and `c` loops for the opponent `a` is bound to; each printed roster becomes an element of the result. */
  method MatchLoops(a: char) returns (printed: seq<Pairing>)
    ensures printed == Printed(Team2, a)
    ensures forall p :: p in printed ==> Admissible(Team2, a, p)
  {
    var team2 := Team2;
    printed := [];
    for j := 0 to |team2|
      invariant printed == BPass(team2, a, j)
    {
      var b := team2[j];
      if b == a {
        continue;
      }
      ghost var prefix := printed;
      for k := 0 to |team2|
        invariant printed == prefix + CPass(team2, a, b, k)
      {
        var c := team2[k];
        if c != a && c != b {
          if c !in ['x', 'z'] {
            printed := printed + [Pairing(a, b, c)];
          }
        }
      }
    }
    forall p | p in printed ensures Admissible(Team2, a, p) {
      PrintedSound(Team2, a, p);
    }
  }

  // ---------------------------------------------------------------------------
  // What the b/c loops print, for any team and any a
  // ---------------------------------------------------------------------------

  lemma {:induction false} CPassSound(t: seq<char>, a: char, b: char, k: nat, p: Pairing)
    requires k <= |t| && p in CPass(t, a, b, k) && b in t && b != a
    ensures Admissible(t, a, p)
  {
    if k > 0 {
      if p in CPass(t, a, b, k - 1) {
        CPassSound(t, a, b, k - 1, p);
      } else {
        var c := t[k - 1];
        assert p == Pairing(a, b, c) && c in t;
      }
    }
  }

  lemma {:induction false} BPassSound(t: seq<char>, a: char, j: nat, p: Pairing)
    requires j <= |t| && p in BPass(t, a, j)
    ensures Admissible(t, a, p)
  {
    if j > 0 {
      var b := t[j - 1];
      if p in BPass(t, a, j - 1) {
        BPassSound(t, a, j - 1, p);
      } else {
        assert b != a && p in CPass(t, a, b, |t|);
        assert b in t;
        CPassSound(t, a, b, |t|, p);
      }
    }
  }

  /** Every printed roster respects the filters of the loops. */
  lemma PrintedSound(t: seq<char>, a: char, p: Pairing)
    requires p in Printed(t, a)
    ensures Admissible(t, a, p)
  {
    BPassSound(t, a, |t|, p);
  }

  lemma {:induction false} CPassComplete(t: seq<char>, a: char, b: char, c: char, k: nat)
    requires k <= |t| && c in t[..k] && c != a && c != b && c !in ExcludedForC
    ensures Pairing(a, b, c) in CPass(t, a, b, k)
  {
    if k > 0 {
      assert t[..k] == t[..k - 1] + [t[k - 1]];
      if c != t[k - 1] {
        CPassComplete(t, a, b, c, k - 1);
      }
    }
  }

  lemma {:induction false} BPassComplete(t: seq<char>, a: char, b: char, c: char, j: nat)
    requires j <= |t| && b in t[..j] && c in t && b != a && c != a && c != b && c !in ExcludedForC
    ensures Pairing(a, b, c) in BPass(t, a, j)
  {
    if j > 0 {
      assert t[..j] == t[..j - 1] + [t[j - 1]];
      if b != t[j - 1] {
        BPassComplete(t, a, b, c, j - 1);
      } else {
        assert t[..|t|] == t;
        CPassComplete(t, a, b, c, |t|);
      }
    }
  }

  /** Every roster that respects the filters is printed. */
  lemma PrintedComplete(t: seq<char>, a: char, p: Pairing)
    requires Admissible(t, a, p)
    ensures p in Printed(t, a)
  {
    assert t[..|t|] == t;
    BPassComplete(t, a, p.b, p.c, |t|);
  }

  // ---------------------------------------------------------------------------
  // What the script prints
  // ---------------------------------------------------------------------------

  /** With `a` left at 'z', exactly one roster is printed: a-z, b-x, c-y. */
  lemma ScriptOutput()
    ensures Printed(Team2, 'z') == [Pairing('z', 'x', 'y')]
    ensures PuzzleSolution(Pairing('z', 'x', 'y'))
  {
    assert CPass(Team2, 'z', 'x', 3) == [Pairing('z', 'x', 'y')];
    assert CPass(Team2, 'z', 'y', 3) == [];
  }

  /** The puzzle stated in the comment has exactly one solution, the roster the script prints. */
  lemma PuzzleSolutionUnique(p: Pairing)
    ensures PuzzleSolution(p) <==> p == Pairing('z', 'x', 'y')
  {
  }

  /**
   * What the script would print if the `b` loop were nested in the `a` loop,
   * so that `a` really ranged over t[..i] and skipped 'x'.
   */
  function NestedPass(t: seq<char>, i: nat): seq<Pairing>
    requires i <= |t|
  {
    if i == 0 then []
    else if t[i - 1] == 'x' then NestedPass(t, i - 1)
    else NestedPass(t, i - 1) + Printed(t, t[i - 1])
  }

  /** With team_2 = x, y, z the nested reading prints the same single roster, so the loop's placement does not change the output. */
  lemma NestedReadingAgrees()
    ensures NestedPass(Team2, |Team2|) == Printed(Team2, 'z') == [Pairing('z', 'x', 'y')]
  {
    ScriptOutput();
    assert Printed(Team2, 'y') == [] by {
      assert CPass(Team2, 'y', 'x', 3) == [];
      assert CPass(Team2, 'y', 'z', 3) == [];
    }
    assert NestedPass(Team2, 2) == [];
  }
}
