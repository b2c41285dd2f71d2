/**
 * The 3-SAT clause evaluator behind the interactive P-vs-NP widget:
 * literals, clauses, partial assignments, the three-valued verdict of a
 * clause, the null -> true -> false -> null toggle of a variable, the fixed
 * catalogue of example formulas, and the status line derived from the
 * verdicts.
 */
module SatVisualizer {
  import opened Wrappers

  /** A literal: its magnitude names a variable (1-based), its sign the polarity. */
  type Literal = int

  /** A clause is a disjunction of literals, kept in display order. */
  type Clause = seq<Literal>

  /**
   * A variable's value, and also a clause's verdict: `Unknown` is the
   * widget's `null` (unset variable, undetermined clause), `Known(b)` a boolean.
   */
  datatype Tri = Unknown | Known(value: bool)

  /** Variable index to value. A key that is absent is JavaScript's `undefined`. */
  type Assignment = map<int, Tri>

  datatype Preset = Preset(name: string, description: string, numVars: nat, clauses: seq<Clause>)

  /** The catalogue of example formulas offered by the widget. */
  const Presets: seq<Preset> := [
    Preset("Easy (SAT)", "Unit propagation solves it immediately", 3,
           [[1, 2, 3], [1, -2, 3], [-1, 2, 3]]),
    Preset("Hard (SAT)", "Near the phase transition \U{2014} requires search", 4,
           [[1, 2, -3], [-1, 3, 4], [2, -3, -4], [-1, -2, 4], [1, -3, 4], [-2, 3, -4], [1, 2, 4]]),
    Preset("Unsatisfiable", "No assignment can satisfy all clauses", 3,
           [[1, 2], [1, -2], [-1, 2], [-1, -2]])
  ]

  const EasyIndex := 0
  const HardIndex := 1
  const UnsatisfiableIndex := 2

  /** `Math.abs(lit)`: the variable a literal mentions. */
  function VarOf(lit: Literal): nat { if lit < 0 then -lit else lit }

  /** `assignment[v]` as the evaluator reads it: `null` and `undefined` both mean unset. */
  function Lookup(a: Assignment, v: int): Tri { if v in a then a[v] else Unknown }

  /** The truth of one literal, `lit > 0 ? value : !value`, or Unknown while its variable is unset. */
  function LiteralValue(lit: Literal, a: Assignment): Tri {
    match Lookup(a, VarOf(lit))
    case Unknown => Unknown
    case Known(b) => Known(if lit > 0 then b else !b)
  }

  /** Kleene's three-valued disjunction. */
  function Or3(x: Tri, y: Tri): Tri {
    if x == Known(true) || y == Known(true) then Known(true)
    else if x == Unknown || y == Unknown then Unknown
    else Known(false)
  }

  /** Reference semantics of a clause: the three-valued disjunction of its literals. */
  function ClauseValue(c: Clause, a: Assignment): (r: Tri)
    ensures r == Known(false) <==> forall i :: 0 <= i < |c| ==> LiteralValue(c[i], a) == Known(false)
  {
    if c == [] then Known(false) else Or3(LiteralValue(c[0], a), ClauseValue(c[1..], a))
  }

  ghost predicate SomeLiteralTrue(c: Clause, a: Assignment) {
    exists i :: 0 <= i < |c| && LiteralValue(c[i], a) == Known(true)
  }

  ghost predicate SomeVariableUnset(c: Clause, a: Assignment) {
    exists i :: 0 <= i < |c| && Lookup(a, VarOf(c[i])) == Unknown
  }

  /**
   * The three verdicts of a clause: satisfied exactly when some literal is
   * true; violated exactly when no literal is true and every variable is set
   * (so the empty clause is violated); undetermined exactly when no literal
   * is true and some variable is unset.
   */
  lemma {:induction false} ClauseValueCharacterised(c: Clause, a: Assignment)
    ensures ClauseValue(c, a) == Known(true) <==> SomeLiteralTrue(c, a)
    ensures ClauseValue(c, a) == Known(false) <==> !SomeLiteralTrue(c, a) && !SomeVariableUnset(c, a)
    ensures ClauseValue(c, a) == Unknown <==> !SomeLiteralTrue(c, a) && SomeVariableUnset(c, a)
  {
    if c != [] {
      var t := c[1..];
      ClauseValueCharacterised(t, a);
      assert SomeLiteralTrue(c, a) <==> LiteralValue(c[0], a) == Known(true) || SomeLiteralTrue(t, a) by {
        if SomeLiteralTrue(t, a) {
          var i :| 0 <= i < |t| && LiteralValue(t[i], a) == Known(true);
          assert c[i + 1] == t[i];
        }
        if SomeLiteralTrue(c, a) {
          var i :| 0 <= i < |c| && LiteralValue(c[i], a) == Known(true);
          if i > 0 { assert t[i - 1] == c[i]; }
        }
      }
      assert SomeVariableUnset(c, a) <==> Lookup(a, VarOf(c[0])) == Unknown || SomeVariableUnset(t, a) by {
        if SomeVariableUnset(t, a) {
          var i :| 0 <= i < |t| && Lookup(a, VarOf(t[i])) == Unknown;
          assert c[i + 1] == t[i];
        }
        if SomeVariableUnset(c, a) {
          var i :| 0 <= i < |c| && Lookup(a, VarOf(c[i])) == Unknown;
          if i > 0 { assert t[i - 1] == c[i]; }
        }
      }
    }
  }

  /**
   * `evaluateClause`: scans the literals left to right, remembers whether an
   * unset variable was seen, and stops at the first true literal.
   */
  method EvaluateClause(clause: Clause, assignment: Assignment) returns (r: Tri)
    ensures r == ClauseValue(clause, assignment)
    ensures r == Known(true) <==> SomeLiteralTrue(clause, assignment)
    ensures r == Unknown <==> !SomeLiteralTrue(clause, assignment) && SomeVariableUnset(clause, assignment)
  {
    ClauseValueCharacterised(clause, assignment);
    var hasUnset := false;
    for i := 0 to |clause|
      invariant hasUnset <==> exists j :: 0 <= j < i && Lookup(assignment, VarOf(clause[j])) == Unknown
      invariant forall j :: 0 <= j < i ==> LiteralValue(clause[j], assignment) != Known(true)
    {
      var lit := clause[i];
      var variable := VarOf(lit);
      if variable !in assignment || assignment[variable] == Unknown {
        hasUnset := true;
        continue;
      }
      var value := assignment[variable].value;
      var literalTrue := if lit > 0 then value else !value;
      if literalTrue {
        assert LiteralValue(clause[i], assignment) == Known(true);
        return Known(true);
      }
    }
    r := if hasUnset then Unknown else Known(false);
  }

  /** The order of the literals in a clause does not affect its verdict. */
  lemma ClauseOrderIrrelevant(c1: Clause, c2: Clause, a: Assignment)
    requires multiset(c1) == multiset(c2)
    ensures ClauseValue(c1, a) == ClauseValue(c2, a)
  {
    ClauseValueCharacterised(c1, a);
    ClauseValueCharacterised(c2, a);
    forall c, d | (c == c1 && d == c2) || (c == c2 && d == c1)
      ensures SomeLiteralTrue(c, a) ==> SomeLiteralTrue(d, a)
      ensures SomeVariableUnset(c, a) ==> SomeVariableUnset(d, a)
    {
      if SomeLiteralTrue(c, a) {
        var i :| 0 <= i < |c| && LiteralValue(c[i], a) == Known(true);
        assert c[i] in multiset(d);
        var j :| 0 <= j < |d| && d[j] == c[i];
      }
      if SomeVariableUnset(c, a) {
        var i :| 0 <= i < |c| && Lookup(a, VarOf(c[i])) == Unknown;
        assert c[i] in multiset(d);
        var j :| 0 <= j < |d| && d[j] == c[i];
      }
    }
  }

  /** `b` keeps every value `a` has set (and may set more variables). */
  ghost predicate Extends(b: Assignment, a: Assignment) {
    forall v :: Lookup(a, v).Known? ==> Lookup(b, v) == Lookup(a, v)
  }

  /**
   * A decided verdict stays decided: setting further variables never changes
   * a satisfied or violated clause, so one true literal wins whatever the
   * other literals later become.
   */
  lemma {:induction false} DecidedVerdictIsStable(c: Clause, a: Assignment, b: Assignment)
    requires Extends(b, a)
    ensures ClauseValue(c, a).Known? ==> ClauseValue(c, b) == ClauseValue(c, a)
  {
    if c != [] {
      DecidedVerdictIsStable(c[1..], a, b);
      assert Lookup(a, VarOf(c[0])).Known? ==> Lookup(b, VarOf(c[0])) == Lookup(a, VarOf(c[0]));
    }
  }

  /**
   * `toggleVariable`: the functional update `{...prev, [v]: next}` cycling
   * null -> true -> false -> null. A missing entry is neither `null` nor
   * `true`, so it becomes `null`.
   */
  function Toggled(a: Assignment, v: int): (r: Assignment)
    ensures r.Keys == a.Keys + {v}
    ensures forall k :: k in a && k != v ==> r[k] == a[k]
    ensures v !in a ==> r[v] == Unknown
  {
    var next := if v in a && a[v] == Unknown then Known(true)
                else if v in a && a[v] == Known(true) then Known(false)
                else Unknown;
    a[v := next]
  }

  /**
   * Toggling is a cycle of length exactly three on a present entry: one or
   * two toggles change the value, three restore the assignment.
   */
  lemma ToggleIsThreeCycle(a: Assignment, v: int)
    requires v in a
    ensures Toggled(a, v)[v] != a[v]
    ensures Toggled(Toggled(a, v), v)[v] != a[v]
    ensures Toggled(Toggled(Toggled(a, v), v), v) == a
    ensures a[v] == Unknown ==> Toggled(a, v)[v] == Known(true) && Toggled(Toggled(a, v), v)[v] == Known(false)
  {
  }

  /** A toggle of `v` leaves the verdict of every clause that does not mention `v` alone. */
  lemma {:induction false} ToggleKeepsOtherClauses(c: Clause, a: Assignment, v: int)
    requires forall i :: 0 <= i < |c| ==> VarOf(c[i]) != v
    ensures ClauseValue(c, Toggled(a, v)) == ClauseValue(c, a)
  {
    if c != [] {
      ToggleKeepsOtherClauses(c[1..], a, v);
      assert Lookup(Toggled(a, v), VarOf(c[0])) == Lookup(a, VarOf(c[0]));
    }
  }

  /** `clauseResults`: the verdict of every clause, in order. */
  function Results(clauses: seq<Clause>, a: Assignment): (r: seq<Tri>)
    ensures |r| == |clauses|
    ensures forall i :: 0 <= i < |clauses| ==>
      (r[i] == Known(false) <==> forall j :: 0 <= j < |clauses[i]| ==> LiteralValue(clauses[i][j], a) == Known(false))
  {
    seq(|clauses|, i requires 0 <= i < |clauses| => ClauseValue(clauses[i], a))
  }

  /**
   * `clauseResults.every((r) => r === true)`; it holds exactly when the
   * count of satisfied clauses shown in the status line is the number of clauses.
   */
  predicate AllSatisfied(results: seq<Tri>)
    ensures AllSatisfied(results) <==> Count(results, Known(true)) == |results|
  {
    CountAll(results, Known(true));
    forall i :: 0 <= i < |results| ==> results[i] == Known(true)
  }

  /**
   * `clauseResults.some((r) => r === false)`; it holds exactly when the
   * status line has violated clauses to count, and never together with `AllSatisfied`.
   */
  predicate AnyViolated(results: seq<Tri>)
    ensures AnyViolated(results) <==> Count(results, Known(false)) > 0
    ensures AnyViolated(results) ==> !AllSatisfied(results)
  {
    CountPositive(results, Known(false));
    exists i :: 0 <= i < |results| && results[i] == Known(false)
  }

  /** The number of results equal to `t`: `clauseResults.filter((r) => r === t).length`. */
  function Count(results: seq<Tri>, t: Tri): (r: nat)
    ensures r <= |results|
  {
    if results == [] then 0 else (if results[0] == t then 1 else 0) + Count(results[1..], t)
  }

  lemma {:induction false} CountAll(results: seq<Tri>, t: Tri)
    ensures Count(results, t) == |results| <==> forall i :: 0 <= i < |results| ==> results[i] == t
  {
    if results != [] {
      CountAll(results[1..], t);
      if forall i :: 0 <= i < |results| ==> results[i] == t {
        assert forall i :: 0 <= i < |results| - 1 ==> results[1..][i] == results[i + 1];
      }
    }
  }

  lemma {:induction false} CountPositive(results: seq<Tri>, t: Tri)
    ensures Count(results, t) > 0 <==> exists i :: 0 <= i < |results| && results[i] == t
  {
    if results != [] {
      CountPositive(results[1..], t);
      if exists i :: 0 <= i < |results| && results[i] == t {
        var i :| 0 <= i < |results| && results[i] == t;
        if i > 0 { assert results[1..][i - 1] == t; }
      }
    }
  }

  /** The variables that are set: `Object.values(assignment).filter((v) => v !== null)`. */
  function AssignedVars(a: Assignment): set<int> {
    set k | k in a && a[k].Known?
  }

  /** `assignedCount`: at most the number of keys, and zero exactly when every present variable is `null`. */
  function AssignedCount(a: Assignment): (r: nat)
    ensures r <= |a.Keys|
    ensures r == 0 <==> forall k :: k in a ==> a[k] == Unknown
  {
    AssignedVarsBounds(a);
    |AssignedVars(a)|
  }

  lemma AssignedVarsBounds(a: Assignment)
    ensures |AssignedVars(a)| <= |a.Keys|
    ensures AssignedVars(a) == {} <==> forall k :: k in a ==> a[k] == Unknown
  {
    SubsetSize(AssignedVars(a), a.Keys);
    if forall k :: k in a ==> a[k] == Unknown {
      assert AssignedVars(a) == {};
    } else {
      var k :| k in a && a[k] != Unknown;
      assert k in AssignedVars(a);
    }
  }

  lemma SubsetSize(s: set<int>, t: set<int>)
    requires s <= t
    ensures |s| <= |t|
  {
    assert t == s + (t - s);
  }

  /**
   * The formula-level flags mean what their names say: `allSatisfied` holds
   * exactly when every clause has a true literal, `anyViolated` exactly when
   * some clause has every variable set and no true literal, and with at
   * least one clause the two exclude each other.
   */
  lemma FormulaFlagsCharacterised(clauses: seq<Clause>, a: Assignment)
    ensures AllSatisfied(Results(clauses, a)) <==> forall i :: 0 <= i < |clauses| ==> SomeLiteralTrue(clauses[i], a)
    ensures AnyViolated(Results(clauses, a)) <==>
      exists i :: 0 <= i < |clauses| && !SomeLiteralTrue(clauses[i], a) && !SomeVariableUnset(clauses[i], a)
    ensures |clauses| > 0 ==> !(AllSatisfied(Results(clauses, a)) && AnyViolated(Results(clauses, a)))
  {
    var results := Results(clauses, a);
    forall i | 0 <= i < |clauses|
      ensures results[i] == Known(true) <==> SomeLiteralTrue(clauses[i], a)
      ensures results[i] == Known(false) <==> !SomeLiteralTrue(clauses[i], a) && !SomeVariableUnset(clauses[i], a)
    {
      ClauseValueCharacterised(clauses[i], a);
    }
    if AnyViolated(results) {
      var i :| 0 <= i < |results| && results[i] == Known(false);
      assert !SomeLiteralTrue(clauses[i], a) && !SomeVariableUnset(clauses[i], a);
    }
    if |clauses| > 0 && AllSatisfied(results) {
      assert results[0] == Known(true);
    }
  }

  /** Variables 1 to n, the keys of a freshly reset assignment. */
  function VarRange(n: nat): (r: set<int>)
    ensures forall v :: v in r <==> 1 <= v <= n
    ensures |r| == n
  {
    if n == 0 then {} else VarRange(n - 1) + {n}
  }

  /** The assignment with variables 1 to n present and all `null`. */
  function AllUnset(n: nat): Assignment {
    map i | i in VarRange(n) :: Unknown
  }

  /** A reset assignment covers exactly the preset's variables, sets none, and so counts zero assigned. */
  lemma AllUnsetIsReset(n: nat)
    ensures AllUnset(n).Keys == VarRange(n)
    ensures forall v :: Lookup(AllUnset(n), v) == Unknown
    ensures AssignedCount(AllUnset(n)) == 0
  {
    assert AssignedVars(AllUnset(n)) == {};
  }

  /** The loop of `selectPreset` and of the initial state: `a[i] = null` for i from 1 to numVars. */
  method UnsetAssignment(n: nat) returns (a: Assignment)
    ensures a == AllUnset(n)
  {
    a := map[];
    for i := 1 to n + 1
      invariant a == AllUnset(i - 1)
    {
      a := a[i := Unknown];
    }
  }

  /** Every literal of a preset is nonzero and names one of its variables. */
  predicate ValidLiteral(lit: Literal, numVars: nat) {
    lit != 0 && VarOf(lit) <= numVars
  }

  predicate WellFormed(p: Preset) {
    forall i, j :: 0 <= i < |p.clauses| && 0 <= j < |p.clauses[i]| ==> ValidLiteral(p.clauses[i][j], p.numVars)
  }

  lemma PresetsWellFormed()
    ensures forall k :: 0 <= k < |Presets| ==> WellFormed(Presets[k])
  {
  }

  /** The status line under the clauses. */
  datatype StatusLine =
    | Unassigned(remaining: int, satisfiedSoFar: nat)
    | Model
    | Violations(count: nat, unsatisfiableNote: bool)
    | Blank

  /**
   * The status line: a count of unassigned variables while any remain, then
   * "all satisfied", or a count of violated clauses, or nothing while some
   * clause is still undetermined.
   */
  function StatusOf(p: Preset, a: Assignment): (r: StatusLine)
    ensures r.Unassigned? <==> AssignedCount(a) < p.numVars
    ensures r.Unassigned? ==> r.remaining > 0 && r.satisfiedSoFar <= |p.clauses|
    ensures r.Violations? ==> 0 < r.count <= |p.clauses|
    ensures r.Blank? ==> exists i :: 0 <= i < |p.clauses| && ClauseValue(p.clauses[i], a) == Unknown
  {
    var results := Results(p.clauses, a);
    if AssignedCount(a) < p.numVars then Unassigned(p.numVars - AssignedCount(a), Count(results, Known(true)))
    else if AllSatisfied(results) then Model
    else if AnyViolated(results) then Violations(Count(results, Known(false)), p.name == "Unsatisfiable")
    else
      assert !AllSatisfied(results);
      var i :| 0 <= i < |results| && results[i] != Known(true);
      assert results[i] == Unknown;
      Blank
  }

  lemma SubsetOfSameSize(s: set<int>, t: set<int>)
    requires s <= t && |s| >= |t|
    ensures s == t
  {
    assert t == s + (t - s);
    assert s * (t - s) == {};
    assert |t - s| == 0;
    forall x | x in t
      ensures x in s
    {
      assert x !in t - s;
    }
  }

  /**
   * Once the status line reports every variable assigned, for a well-formed
   * preset and the keys the widget keeps, no clause is undetermined: the
   * status is exactly one of "all satisfied" and "some violated", the first
   * exactly when every clause has a true literal, the second with at least
   * one violated clause to report.
   */
  lemma StatusDecidedWhenAllAssigned(p: Preset, a: Assignment)
    requires WellFormed(p)
    requires a.Keys == VarRange(p.numVars)
    requires AssignedCount(a) >= p.numVars
    ensures StatusOf(p, a).Model? || StatusOf(p, a).Violations?
    ensures StatusOf(p, a).Model? <==> forall i :: 0 <= i < |p.clauses| ==> SomeLiteralTrue(p.clauses[i], a)
    ensures StatusOf(p, a).Violations? ==> StatusOf(p, a).count > 0
    ensures forall i :: 0 <= i < |p.clauses| ==> Results(p.clauses, a)[i].Known?
  {
    SubsetOfSameSize(AssignedVars(a), VarRange(p.numVars));
    var results := Results(p.clauses, a);
    forall i | 0 <= i < |p.clauses|
      ensures results[i].Known?
    {
      ClauseValueCharacterised(p.clauses[i], a);
      forall j | 0 <= j < |p.clauses[i]|
        ensures Lookup(a, VarOf(p.clauses[i][j])).Known?
      {
        assert VarOf(p.clauses[i][j]) in AssignedVars(a);
      }
    }
    FormulaFlagsCharacterised(p.clauses, a);
    CountPositive(results, Known(false));
  }

  /** Every variable from 1 to n set to `true`. */
  function AllTrue(n: nat): Assignment {
    map i | i in VarRange(n) :: Known(true)
  }

  /** Whether a clause has a positive literal naming one of variables 1 to n. */
  predicate HasPositiveLiteral(c: Clause, n: nat) {
    c != [] && ((0 < c[0] <= n) || HasPositiveLiteral(c[1..], n))
  }

  lemma {:induction false} AllTrueSatisfies(c: Clause, n: nat)
    requires HasPositiveLiteral(c, n)
    ensures ClauseValue(c, AllTrue(n)) == Known(true)
  {
    if !(0 < c[0] <= n) {
      AllTrueSatisfies(c[1..], n);
    }
  }

  /**
   * A preset in which every clause has a positive literal has a total model,
   * the all-true assignment, and the status line reports it.
   */
  lemma AllTrueIsModel(p: Preset)
    requires forall i :: 0 <= i < |p.clauses| ==> HasPositiveLiteral(p.clauses[i], p.numVars)
    ensures AllTrue(p.numVars).Keys == VarRange(p.numVars)
    ensures StatusOf(p, AllTrue(p.numVars)) == Model
  {
    var a := AllTrue(p.numVars);
    assert AssignedVars(a) == VarRange(p.numVars);
    forall i | 0 <= i < |p.clauses|
      ensures Results(p.clauses, a)[i] == Known(true)
    {
      AllTrueSatisfies(p.clauses[i], p.numVars);
    }
  }

  /** The "Easy (SAT)" and "Hard (SAT)" presets each have a total assignment that is a model. */
  lemma SatisfiablePresetsHaveModels()
    ensures StatusOf(Presets[EasyIndex], AllTrue(3)) == Model
    ensures StatusOf(Presets[HardIndex], AllTrue(4)) == Model
  {
    AllTrueIsModel(Presets[EasyIndex]);
    AllTrueIsModel(Presets[HardIndex]);
  }

  /**
   * The "Unsatisfiable" preset has no model: as soon as x1 and x2 are set,
   * some clause is violated, whatever their values and whatever x3 is.
   */
  lemma UnsatisfiablePresetAlwaysViolated(a: Assignment)
    requires Lookup(a, 1).Known? && Lookup(a, 2).Known?
    ensures AnyViolated(Results(Presets[UnsatisfiableIndex].clauses, a))
    ensures !AllSatisfied(Results(Presets[UnsatisfiableIndex].clauses, a))
  {
    var clauses := Presets[UnsatisfiableIndex].clauses;
    var x1, x2 := Lookup(a, 1).value, Lookup(a, 2).value;
    var k := if x1 then (if x2 then 3 else 2) else (if x2 then 1 else 0);
    var c := clauses[k];
    assert |c| == 2 && c[1..][1..] == [] && c[1..][0] == c[1];
    assert LiteralValue(c[0], a) == Known(false);
    assert LiteralValue(c[1], a) == Known(false);
    assert ClauseValue(c[1..], a) == Known(false);
    assert ClauseValue(c, a) == Known(false);
    assert Results(clauses, a)[k] == Known(false);
  }

  /** With every variable of the "Unsatisfiable" preset assigned, the status reports violations and the note. */
  lemma UnsatisfiablePresetStatus(a: Assignment)
    requires a.Keys == VarRange(3)
    requires AssignedCount(a) >= 3
    ensures StatusOf(Presets[UnsatisfiableIndex], a).Violations?
    ensures StatusOf(Presets[UnsatisfiableIndex], a).unsatisfiableNote
  {
    SubsetOfSameSize(AssignedVars(a), VarRange(3));
    assert 1 in AssignedVars(a) && 2 in AssignedVars(a);
    UnsatisfiablePresetAlwaysViolated(a);
  }

  function DigitChar(d: nat): char
    requires d < 10
  {
    ('0' as int + d) as char
  }

  predicate IsDigit(c: char) { '0' <= c <= '9' }

  /** The decimal numeral of `n`, as template literals print it. */
  function Decimal(n: nat): (s: string)
    ensures |s| >= 1 && forall i :: 0 <= i < |s| ==> IsDigit(s[i])
  {
    if n < 10 then [DigitChar(n)] else Decimal(n / 10) + [DigitChar(n % 10)]
  }

  function ParseDecimal(s: string): int
    requires |s| >= 1 && forall i :: 0 <= i < |s| ==> IsDigit(s[i])
  {
    var d := s[|s| - 1] as int - '0' as int;
    if |s| == 1 then d else 10 * ParseDecimal(s[..|s| - 1]) + d
  }

  lemma {:induction false} DecimalRoundTrip(n: nat)
    ensures ParseDecimal(Decimal(n)) == n
  {
    if n >= 10 {
      DecimalRoundTrip(n / 10);
      assert Decimal(n)[..|Decimal(n)| - 1] == Decimal(n / 10);
    }
  }

  /** `literalToString`: `x<v>` for a positive literal, `¬x<v>` otherwise. */
  function LiteralToString(lit: Literal): (r: string)
    ensures |r| >= 2
    ensures r[0] == 'x' <==> lit > 0
  {
    if lit > 0 then "x" + Decimal(VarOf(lit)) else "\U{00AC}x" + Decimal(VarOf(lit))
  }

  predicate AllDigits(s: string) {
    |s| >= 1 && forall i :: 0 <= i < |s| ==> IsDigit(s[i])
  }

  /** Reads a literal back from its display form. */
  function ParseLiteral(s: string): Option<int> {
    if |s| >= 2 && s[0] == 'x' && AllDigits(s[1..]) then Some(ParseDecimal(s[1..]))
    else if |s| >= 3 && s[0] == '\U{00AC}' && s[1] == 'x' && AllDigits(s[2..]) then Some(-ParseDecimal(s[2..]))
    else None
  }

  /** The display form of a literal determines it: reading it back gives the literal. */
  lemma LiteralToStringRoundTrip(lit: Literal)
    ensures ParseLiteral(LiteralToString(lit)) == Some(lit)
  {
    var s := LiteralToString(lit);
    DecimalRoundTrip(VarOf(lit));
    if lit > 0 {
      assert s[1..] == Decimal(VarOf(lit));
    } else {
      assert s[0] != 'x';
      assert s[2..] == Decimal(VarOf(lit));
    }
  }

  /**
   * The widget's state: the selected preset and the assignment. The keys of
   * the assignment are always exactly the preset's variables.
   */
  class Visualizer {
    var presetIndex: nat
    var assignment: Assignment

    ghost predicate Valid()
      reads this
    {
      presetIndex < |Presets| && assignment.Keys == VarRange(Presets[presetIndex].numVars)
    }

    constructor ()
      ensures Valid()
      ensures presetIndex == 0 && assignment == AllUnset(Presets[0].numVars)
    {
      var a := UnsetAssignment(Presets[0].numVars);
      AllUnsetIsReset(Presets[0].numVars);
      presetIndex := 0;
      assignment := a;
    }

    /** `selectPreset`: switch formula and reset every one of its variables to `null`. */
    method SelectPreset(idx: nat)
      requires idx < |Presets|
      modifies this
      ensures Valid()
      ensures presetIndex == idx && assignment == AllUnset(Presets[idx].numVars)
      ensures AssignedCount(assignment) == 0
    {
      var a := UnsetAssignment(Presets[idx].numVars);
      AllUnsetIsReset(Presets[idx].numVars);
      presetIndex := idx;
      assignment := a;
    }

    /** `toggleVariable`, reached from the buttons of variables 1 to numVars. */
    method ToggleVariable(v: int)
      requires Valid() && 1 <= v <= Presets[presetIndex].numVars
      modifies this
      ensures Valid()
      ensures presetIndex == old(presetIndex) && assignment == Toggled(old(assignment), v)
    {
      assignment := Toggled(assignment, v);
    }

    /** The status line of the current state; it is decided once every variable of the preset is assigned. */
    function Status(): (s: StatusLine)
      reads this
      requires Valid()
      ensures AssignedCount(assignment) >= Presets[presetIndex].numVars ==> s.Model? || s.Violations?
    {
      var p := Presets[presetIndex];
      assert AssignedCount(assignment) >= p.numVars ==> StatusOf(p, assignment).Model? || StatusOf(p, assignment).Violations? by {
        if AssignedCount(assignment) >= p.numVars {
          PresetsWellFormed();
          StatusDecidedWhenAllAssigned(p, assignment);
        }
      }
      StatusOf(p, assignment)
    }
  }
}
