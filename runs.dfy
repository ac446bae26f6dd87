/**
 * Sequences of registration attempts against one event, each handled as a
 * single sequential step. They state the guarantees the registration handler
 * gives over whole histories: both invariants hold after any history, nothing
 * registered is ever lost, and a capacity of n admits exactly the first n
 * distinct new students.
 */
module Runs {
  import opened Events

  /** One request: the caller's role and id, and the clock when it is handled. */
  datatype Attempt = Attempt(role: string, student: UserId, at: int)

  datatype Trace = Trace(final: seq<Registration>, outcomes: seq<RegisterOutcome>)

  function CountRegistered(os: seq<RegisterOutcome>): (count: nat)
    ensures count <= |os|
  {
    if os == [] then 0 else (if os[0] == Registered then 1 else 0) + CountRegistered(os[1..])
  }

  /** Handle `attempts` in order, starting from `regs`. */
  function Run(regs: seq<Registration>, cap: Capacity, attempts: seq<Attempt>): (t: Trace)
    ensures |t.outcomes| == |attempts|
    ensures regs <= t.final
    ensures |t.final| == |regs| + CountRegistered(t.outcomes)
    decreases |attempts|
  {
    if attempts == [] then Trace(regs, [])
    else
      var a := attempts[0];
      var o := RegisterVerdict(a.role, regs, cap, a.student);
      var rest := Run(AfterRegister(regs, o, a.student, a.at), cap, attempts[1..]);
      assert ([o] + rest.outcomes)[1..] == rest.outcomes;
      Trace(rest.final, [o] + rest.outcomes)
  }

  /** After any history both invariants of the event still hold. */
  lemma {:induction false} RunKeepsInvariants(regs: seq<Registration>, cap: Capacity, attempts: seq<Attempt>)
    requires WithinCapacity(regs, cap) && DistinctStudents(regs)
    ensures WithinCapacity(Run(regs, cap, attempts).final, cap)
    ensures DistinctStudents(Run(regs, cap, attempts).final)
    decreases |attempts|
  {
    if attempts != [] {
      var a := attempts[0];
      var o := RegisterVerdict(a.role, regs, cap, a.student);
      RegisterKeepsCapacity(a.role, regs, cap, a.student, a.at);
      RegisterKeepsDistinct(a.role, regs, cap, a.student, a.at);
      RunKeepsInvariants(AfterRegister(regs, o, a.student, a.at), cap, attempts[1..]);
    }
  }

  ghost predicate FreshStudents(regs: seq<Registration>, attempts: seq<Attempt>)
  {
    && (forall i :: 0 <= i < |attempts| ==> attempts[i].role == StudentRole)
    && (forall i, j :: 0 <= i < j < |attempts| ==> attempts[i].student != attempts[j].student)
    && (forall i :: 0 <= i < |attempts| ==> !HasRegistration(regs, attempts[i].student))
  }

  /**
   * With room for `n` and only new, distinct students asking, the first
   * `n - |regs|` are registered and every later one is told Full.
   */
  lemma {:induction false} RunFillsToCapacity(regs: seq<Registration>, n: int, attempts: seq<Attempt>)
    requires |regs| <= n
    requires FreshStudents(regs, attempts)
    ensures var t := Run(regs, Limit(n), attempts);
      (forall i :: 0 <= i < |attempts| ==> t.outcomes[i] == if i < n - |regs| then Registered else Full) &&
      |t.final| == if |regs| + |attempts| <= n then |regs| + |attempts| else n
    decreases |attempts|
  {
    if attempts != [] {
      var a := attempts[0];
      var o := RegisterVerdict(a.role, regs, Limit(n), a.student);
      var next := AfterRegister(regs, o, a.student, a.at);
      var rest := attempts[1..];
      assert a.role == StudentRole && !HasRegistration(regs, a.student);
      forall i | 0 <= i < |rest| ensures !HasRegistration(next, rest[i].student) {
        assert rest[i] == attempts[i + 1];
        assert rest[i].student != a.student;
      }
      RunFillsToCapacity(next, n, rest);
      var t := Run(regs, Limit(n), attempts);
      assert t.outcomes == [o] + Run(next, Limit(n), rest).outcomes;
    }
  }

  /** Every attempt by the same caller. */
  ghost predicate SameCaller(attempts: seq<Attempt>, role: string, userId: UserId)
  {
    forall i :: 0 <= i < |attempts| ==> attempts[i].role == role && attempts[i].student == userId
  }

  /** A refused duplicate stays refused, however often it is repeated, and never changes the event. */
  lemma {:induction false} RepeatedDuplicateRefused(regs: seq<Registration>, cap: Capacity, role: string, userId: UserId, attempts: seq<Attempt>)
    requires RegisterVerdict(role, regs, cap, userId) == AlreadyRegistered
    requires SameCaller(attempts, role, userId)
    ensures Run(regs, cap, attempts).final == regs
    ensures forall i :: 0 <= i < |attempts| ==> Run(regs, cap, attempts).outcomes[i] == AlreadyRegistered
    decreases |attempts|
  {
    if attempts != [] {
      assert attempts[0].role == role && attempts[0].student == userId;
      var rest := attempts[1..];
      assert SameCaller(rest, role, userId) by {
        forall i | 0 <= i < |rest| ensures rest[i] == attempts[i + 1] { }
      }
      RepeatedDuplicateRefused(regs, cap, role, userId, rest);
    }
  }

  /**
   * Capacity one: A registers, A again is told Full (capacity is checked
   * before the duplicate), B is told Full.
   */
  lemma CapacityOneScenario()
    ensures Run([], Limit(1), [Attempt(StudentRole, "A", 1), Attempt(StudentRole, "A", 2), Attempt(StudentRole, "B", 3)])
         == Trace([Registration("A", 1, false)], [Registered, Full, Full])
  {
    var a1, a2, a3 := Attempt(StudentRole, "A", 1), Attempt(StudentRole, "A", 2), Attempt(StudentRole, "B", 3);
    var one := [Registration("A", 1, false)];
    assert [a1, a2, a3][1..] == [a2, a3] && [a2, a3][1..] == [a3];
    assert Run(one, Limit(1), [a3]) == Trace(one, [Full]);
    assert Run(one, Limit(1), [a2, a3]) == Trace(one, [Full, Full]);
    assert RegisterVerdict(StudentRole, [], Limit(1), "A") == Registered;
    assert AfterRegister([], Registered, "A", 1) == one;
  }
}
