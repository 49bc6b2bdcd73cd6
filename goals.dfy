/** The goal tables and the goal upsert of `set_goals` (comisys.py:549-577), with the goal reads of
    the dashboards (modules/dashboards/__init__.py:35-37, 48-50) and of the goal form
    (comisys.py:579-591). */
module Goals {
  import opened Wrappers

  /** A row of IndividualGoals. */
  datatype IndividualGoal = IndividualGoal(id: nat, userId: nat, goal: real)
  /** A row of GeneralGoals. */
  datatype GeneralGoal = GeneralGoal(id: nat, goal: real)

  /** The one row id that the general-goal UPDATE addresses. */
  const GeneralGoalId: nat := 1

  datatype GoalError = NoGoalGiven

  /** Both tables with their AUTOINCREMENT counters; rows are kept in id order. */
  datatype GoalState = GoalState(individual: seq<IndividualGoal>, nextIndividualId: nat,
                                 general: seq<GeneralGoal>, nextGeneralId: nat)

  predicate IndividualIdsOrdered(rows: seq<IndividualGoal>, next: nat) {
    && (forall i, j :: 0 <= i < j < |rows| ==> rows[i].id < rows[j].id)
    && (forall i :: 0 <= i < |rows| ==> rows[i].id < next)
  }

  /** The general table is empty and has never been written, or holds the single row with id 1
      — the only row the UPDATE addresses. */
  predicate GeneralTableShape(rows: seq<GeneralGoal>, next: nat) {
    || (rows == [] && next == GeneralGoalId)
    || (|rows| == 1 && rows[0].id == GeneralGoalId && next == GeneralGoalId + 1)
  }

  predicate ValidState(st: GoalState) {
    IndividualIdsOrdered(st.individual, st.nextIndividualId) && GeneralTableShape(st.general, st.nextGeneralId)
  }

  /** `SELECT * FROM IndividualGoals WHERE user_id = ?` finds a row. */
  predicate HasGoalRow(rows: seq<IndividualGoal>, userId: nat) {
    exists i :: 0 <= i < |rows| && rows[i].userId == userId
  }

  /** `UPDATE IndividualGoals SET goal = ? WHERE user_id = ?`. */
  function UpdateUserGoal(rows: seq<IndividualGoal>, userId: nat, g: real): seq<IndividualGoal> {
    seq(|rows|, i requires 0 <= i < |rows| => if rows[i].userId == userId then rows[i].(goal := g) else rows[i])
  }

  /** `UPDATE GeneralGoals SET goal = ? WHERE id = 1`. */
  function UpdateGeneralGoal(rows: seq<GeneralGoal>, g: real): seq<GeneralGoal> {
    seq(|rows|, i requires 0 <= i < |rows| => if rows[i].id == GeneralGoalId then rows[i].(goal := g) else rows[i])
  }

  /** The individual-goal branch: update the user's rows, or insert one when there are none. */
  function WithIndividualGoal(st: GoalState, userId: nat, g: real): GoalState {
    if HasGoalRow(st.individual, userId) then st.(individual := UpdateUserGoal(st.individual, userId, g))
    else st.(individual := st.individual + [IndividualGoal(st.nextIndividualId, userId, g)],
             nextIndividualId := st.nextIndividualId + 1)
  }

  /** The general-goal branch: update row 1 when the table has any row, else insert. */
  function WithGeneralGoal(st: GoalState, g: real): GoalState {
    if st.general != [] then st.(general := UpdateGeneralGoal(st.general, g))
    else st.(general := [GeneralGoal(st.nextGeneralId, g)], nextGeneralId := st.nextGeneralId + 1)
  }

  /** The POST handler; a blank form field is `None`. */
  function SetGoalsSpec(st: GoalState, individualGoal: Option<real>, generalGoal: Option<real>, userId: nat)
    : Result<GoalState, GoalError>
  {
    if individualGoal.None? && generalGoal.None? then Failure(NoGoalGiven)
    else
      var st1 := if individualGoal.Some? then WithIndividualGoal(st, userId, individualGoal.value) else st;
      Success(if generalGoal.Some? then WithGeneralGoal(st1, generalGoal.value) else st1)
  }

  /** `SELECT goal FROM IndividualGoals WHERE user_id = ?` then `fetchone()`: the first row in
      id order, or 0 when there is none. */
  function IndividualGoalOf(rows: seq<IndividualGoal>, userId: nat): real {
    if rows == [] then 0.0
    else if rows[0].userId == userId then rows[0].goal
    else IndividualGoalOf(rows[1..], userId)
  }

  /** `SELECT goal FROM GeneralGoals ORDER BY id DESC LIMIT 1`, or 0 on an empty table. */
  function CurrentGeneralGoal(rows: seq<GeneralGoal>): real {
    if rows == [] then 0.0 else rows[|rows| - 1].goal
  }

  /** The goal the form shows for one user: the dictionary built from all rows keeps the last
      row of that user. */
  function LastGoalOf(rows: seq<IndividualGoal>, userId: nat): Option<real> {
    if rows == [] then None
    else if rows[|rows| - 1].userId == userId then Some(rows[|rows| - 1].goal)
    else LastGoalOf(rows[..|rows| - 1], userId)
  }

  /** `individual_goals_dict` after every seller without a row was given 0. */
  function FormGoals(rows: seq<IndividualGoal>, sellerIds: set<nat>): (m: map<nat, real>)
    ensures m.Keys == sellerIds + set i | 0 <= i < |rows| :: rows[i].userId
  {
    var owners := set i | 0 <= i < |rows| :: rows[i].userId;
    map u | u in sellerIds + owners :: if LastGoalOf(rows, u).Some? then LastGoalOf(rows, u).value else 0.0
  }

  // ---- properties ----

  /** The goal the form reads for a user is that of the user's last row, and there is none
      exactly when the user has no row. */
  lemma {:induction false} LastGoalOfIsLastRow(rows: seq<IndividualGoal>, userId: nat)
    ensures LastGoalOf(rows, userId).None? <==> forall i :: 0 <= i < |rows| ==> rows[i].userId != userId
    ensures forall i :: 0 <= i < |rows| && rows[i].userId == userId && (forall j :: i < j < |rows| ==> rows[j].userId != userId) ==>
      LastGoalOf(rows, userId) == Some(rows[i].goal)
  {
    if rows != [] {
      var n := |rows| - 1;
      var prev := rows[..n];
      LastGoalOfIsLastRow(prev, userId);
      assert forall i :: 0 <= i < n ==> prev[i] == rows[i];
    }
  }

  /** The values of the goal form: a seller without a row shows 0, and a user with rows shows
      the goal of the last one. */
  lemma FormGoalsValues(rows: seq<IndividualGoal>, sellerIds: set<nat>)
    ensures forall k :: k in sellerIds && (forall i :: 0 <= i < |rows| ==> rows[i].userId != k) ==>
      FormGoals(rows, sellerIds)[k] == 0.0
    ensures forall i :: 0 <= i < |rows| && (forall j :: i < j < |rows| ==> rows[j].userId != rows[i].userId) ==>
      rows[i].userId in FormGoals(rows, sellerIds) && FormGoals(rows, sellerIds)[rows[i].userId] == rows[i].goal
  {
    var m := FormGoals(rows, sellerIds);
    forall k | k in sellerIds && (forall i :: 0 <= i < |rows| ==> rows[i].userId != k) ensures m[k] == 0.0 {
      LastGoalOfIsLastRow(rows, k);
    }
    forall i | 0 <= i < |rows| && (forall j :: i < j < |rows| ==> rows[j].userId != rows[i].userId)
      ensures rows[i].userId in m && m[rows[i].userId] == rows[i].goal
    {
      LastGoalOfIsLastRow(rows, rows[i].userId);
    }
  }

  /** A form with both fields blank is refused. */
  lemma EmptyFormRejected(st: GoalState, userId: nat)
    ensures SetGoalsSpec(st, None, None, userId) == Failure(NoGoalGiven)
  {
  }

  /** With an individual goal, every row of the user receives it and nothing else in the row
      changes, or — when the user had no row — exactly one row is appended with a fresh id. */
  lemma IndividualGoalApplied(st: GoalState, g: real, generalGoal: Option<real>, userId: nat)
    ensures var st' := SetGoalsSpec(st, Some(g), generalGoal, userId).value;
      if HasGoalRow(st.individual, userId) then
        && |st'.individual| == |st.individual|
        && st'.nextIndividualId == st.nextIndividualId
        && forall i :: 0 <= i < |st.individual| ==>
             st'.individual[i] == (if st.individual[i].userId == userId then st.individual[i].(goal := g) else st.individual[i])
      else
        st'.individual == st.individual + [IndividualGoal(st.nextIndividualId, userId, g)]
        && st'.nextIndividualId == st.nextIndividualId + 1
  {
  }

  /** Rows of other users are never touched. */
  lemma OtherUsersUntouched(st: GoalState, individualGoal: Option<real>, generalGoal: Option<real>, userId: nat, i: nat)
    requires SetGoalsSpec(st, individualGoal, generalGoal, userId).Success?
    requires i < |st.individual| && st.individual[i].userId != userId
    ensures var st' := SetGoalsSpec(st, individualGoal, generalGoal, userId).value;
      i < |st'.individual| && st'.individual[i] == st.individual[i]
  {
  }

  /** Once the general table has a row it never gains a second one. */
  lemma GeneralTableNeverGrows(st: GoalState, individualGoal: Option<real>, generalGoal: Option<real>, userId: nat)
    requires st.general != []
    requires SetGoalsSpec(st, individualGoal, generalGoal, userId).Success?
    ensures |SetGoalsSpec(st, individualGoal, generalGoal, userId).value.general| == |st.general|
  {
  }

  /** The upsert keeps ids ordered and fresh, and keeps the general table at most one row. */
  lemma SetGoalsPreservesValid(st: GoalState, individualGoal: Option<real>, generalGoal: Option<real>, userId: nat)
    requires ValidState(st)
    requires SetGoalsSpec(st, individualGoal, generalGoal, userId).Success?
    ensures ValidState(SetGoalsSpec(st, individualGoal, generalGoal, userId).value)
  {
  }

  /** The first row of the user carries the new goal after an update. */
  lemma {:induction false} IndividualGoalOfUpdated(rows: seq<IndividualGoal>, userId: nat, g: real)
    requires HasGoalRow(rows, userId)
    ensures IndividualGoalOf(UpdateUserGoal(rows, userId, g), userId) == g
  {
    var r := UpdateUserGoal(rows, userId, g);
    if rows[0].userId != userId {
      var i :| 0 <= i < |rows| && rows[i].userId == userId;
      assert rows[1..][i - 1].userId == userId;
      IndividualGoalOfUpdated(rows[1..], userId, g);
      assert r[1..] == UpdateUserGoal(rows[1..], userId, g);
    }
  }

  /** A user without rows reads the goal of the appended row. */
  lemma {:induction false} IndividualGoalOfAppended(rows: seq<IndividualGoal>, row: IndividualGoal)
    requires !HasGoalRow(rows, row.userId)
    ensures IndividualGoalOf(rows + [row], row.userId) == row.goal
  {
    if rows != [] {
      assert (rows + [row])[1..] == rows[1..] + [row];
      assert !HasGoalRow(rows[1..], row.userId);
      IndividualGoalOfAppended(rows[1..], row);
    }
  }

  /** The last row of the user carries the new goal after an update. */
  lemma {:induction false} LastGoalOfUpdated(rows: seq<IndividualGoal>, userId: nat, g: real)
    requires HasGoalRow(rows, userId)
    ensures LastGoalOf(UpdateUserGoal(rows, userId, g), userId) == Some(g)
  {
    var r := UpdateUserGoal(rows, userId, g);
    var n := |rows| - 1;
    if rows[n].userId != userId {
      var i :| 0 <= i < |rows| && rows[i].userId == userId;
      assert rows[..n][i].userId == userId;
      LastGoalOfUpdated(rows[..n], userId, g);
      assert r[..n] == UpdateUserGoal(rows[..n], userId, g);
    }
  }

  /** A user without rows reads, in the goal form, the goal of the appended row. */
  lemma LastGoalOfAppended(rows: seq<IndividualGoal>, row: IndividualGoal)
    ensures LastGoalOf(rows + [row], row.userId) == Some(row.goal)
  {
  }

  /** After an individual goal `g` was set, the dashboards read `g` for the user. */
  lemma IndividualGoalReadBack(st: GoalState, userId: nat, g: real)
    ensures IndividualGoalOf(WithIndividualGoal(st, userId, g).individual, userId) == g
  {
    if HasGoalRow(st.individual, userId) {
      IndividualGoalOfUpdated(st.individual, userId, g);
    } else {
      IndividualGoalOfAppended(st.individual, IndividualGoal(st.nextIndividualId, userId, g));
    }
  }

  /** After an individual goal `g` was set, the goal form lists the user with `g`. */
  lemma FormGoalReadBack(st: GoalState, userId: nat, g: real, sellerIds: set<nat>)
    ensures var form := FormGoals(WithIndividualGoal(st, userId, g).individual, sellerIds);
      userId in form && form[userId] == g
  {
    var rows := WithIndividualGoal(st, userId, g).individual;
    if HasGoalRow(st.individual, userId) {
      LastGoalOfUpdated(st.individual, userId, g);
      var i :| 0 <= i < |st.individual| && st.individual[i].userId == userId;
      assert rows[i].userId == userId;
    } else {
      var row := IndividualGoal(st.nextIndividualId, userId, g);
      LastGoalOfAppended(st.individual, row);
      assert rows[|st.individual|] == row;
    }
  }

  /** After a general goal `g` was set on a table of valid shape, the dashboards read `g`. */
  lemma GeneralGoalReadBack(st: GoalState, g: real)
    requires GeneralTableShape(st.general, st.nextGeneralId)
    ensures CurrentGeneralGoal(WithGeneralGoal(st, g).general) == g
  {
  }

  /** The goal tables as the application holds them. */
  class GoalTables {
    var individual: seq<IndividualGoal>
    var nextIndividualId: nat
    var general: seq<GeneralGoal>
    var nextGeneralId: nat

    function State(): GoalState
      reads this
    {
      GoalState(individual, nextIndividualId, general, nextGeneralId)
    }

    ghost predicate Valid()
      reads this
    {
      ValidState(State())
    }

    /** Fresh, empty tables. */
    constructor ()
      ensures Valid() && individual == [] && general == []
    {
      individual := [];
      nextIndividualId := 1;
      general := [];
      nextGeneralId := GeneralGoalId;
    }

    /** The POST handler of `set_goals`. */
    method SetGoals(individualGoal: Option<real>, generalGoal: Option<real>, userId: nat)
      returns (res: Result<(), GoalError>)
      requires Valid()
      modifies this
      ensures Valid()
      ensures var spec := SetGoalsSpec(old(State()), individualGoal, generalGoal, userId);
        && (spec.Failure? ==> res == Failure(spec.error) && State() == old(State()))
        && (spec.Success? ==> res.Success? && State() == spec.value)
    {
      if individualGoal.None? && generalGoal.None? {
        return Failure(NoGoalGiven);
      }
      ghost var st := State();
      if individualGoal.Some? {
        var g := individualGoal.value;
        if HasGoalRow(individual, userId) {
          individual := UpdateUserGoal(individual, userId, g);
        } else {
          individual := individual + [IndividualGoal(nextIndividualId, userId, g)];
          nextIndividualId := nextIndividualId + 1;
        }
      }
      if generalGoal.Some? {
        var g := generalGoal.value;
        if general != [] {
          general := UpdateGeneralGoal(general, g);
        } else {
          general := [GeneralGoal(nextGeneralId, g)];
          nextGeneralId := nextGeneralId + 1;
        }
      }
      SetGoalsPreservesValid(st, individualGoal, generalGoal, userId);
      return Success(());
    }
  }
}
