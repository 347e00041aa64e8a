/**
 * `FullTestController`: the right and left arrows move the player between
 * the test tables, clamped at both ends. Each move asks for the haptic cube
 * to be cleared, the numpad buttons to be reset and the gun to be enabled
 * or not, according to the new table.
 */
module FullTest {

  datatype Tester = Tester(testIndex: int, tables: nat)

  /** What one arrow press asks of the rest of the scene. */
  datatype Effects = Effects(clearHaptics: bool, resetButtons: bool, gunEnabled: bool)

  /** A move's new state, its effects, and whether moving the player to the table threw. */
  datatype Move = Move(tester: Tester, effects: Effects, thrown: bool)

  predicate Valid(t: Tester)
  {
    0 <= t.testIndex < t.tables
  }

  /** `Start`: the first table. */
  function Start(tables: nat): (t: Tester)
    ensures t.testIndex == 0 && t.tables == tables
    ensures tables > 0 ==> Valid(t)
  {
    Tester(0, tables)
  }

  /** The effects of arriving at table `i`: the gun belongs to table 3, the cube to table 0, the numpad to the next-to-last table. */
  function Arrive(t: Tester, i: int): (m: Move)
    ensures m.tester == t.(testIndex := i)
    ensures m.effects.gunEnabled <==> i == 3
    ensures m.effects.clearHaptics <==> i != 0
    ensures m.effects.resetButtons <==> i != t.tables - 2
    ensures m.thrown <==> !(0 <= i < t.tables)
  {
    Move(t.(testIndex := i), Effects(i != 0, i != t.tables - 2, i == 3), !(0 <= i < t.tables))
  }

  /** The right arrow: the next table unless this is the last. */
  function Right(t: Tester): (m: Move)
    ensures Valid(t) ==> Valid(m.tester) && !m.thrown
    ensures t.testIndex < t.tables - 1 ==> m.tester.testIndex == t.testIndex + 1
    ensures t.testIndex >= t.tables - 1 ==> m.tester == t
  {
    Arrive(t, if t.testIndex < t.tables - 1 then t.testIndex + 1 else t.testIndex)
  }

  /** The left arrow: the previous table unless this is the first. */
  function Left(t: Tester): (m: Move)
    ensures Valid(t) ==> Valid(m.tester) && !m.thrown
    ensures t.testIndex > 0 ==> m.tester.testIndex == t.testIndex - 1
    ensures t.testIndex <= 0 ==> m.tester == t
  {
    Arrive(t, if t.testIndex > 0 then t.testIndex - 1 else t.testIndex)
  }

  /** With no tables the very first move throws on the table lookup. */
  lemma NoTablesThrows(t: Tester)
    requires t.tables == 0 && t.testIndex == 0
    ensures Right(t).thrown && Left(t).thrown
  {
  }

  /** Left undoes right except at the last table, and right undoes left except at the first. */
  lemma LeftUndoesRight(t: Tester)
    requires Valid(t) && t.testIndex < t.tables - 1
    ensures Left(Right(t).tester).tester == t
  {
  }

  lemma RightUndoesLeft(t: Tester)
    requires Valid(t) && t.testIndex > 0
    ensures Right(Left(t).tester).tester == t
  {
  }

  /** Repeated presses of the right arrow stop at the last table. */
  function RightTimes(t: Tester, k: nat): (r: Tester)
    requires Valid(t)
    ensures Valid(r) && r.tables == t.tables
    decreases k
  {
    if k == 0 then t else Right(RightTimes(t, k - 1)).tester
  }

  lemma {:induction false} RightTimesClamps(t: Tester, k: nat)
    requires Valid(t)
    ensures RightTimes(t, k).testIndex == if t.testIndex + k < t.tables then t.testIndex + k else t.tables - 1
    decreases k
  {
    if k > 0 {
      RightTimesClamps(t, k - 1);
    }
  }
}
