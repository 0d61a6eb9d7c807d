/** Removing a kernel module within a budget of one-second tries. */
module PatientRemoval {
  import opened Wrappers

  /** What the system answers at each second: is the reference count zero (or gone), is the module
      still there, and the exit status of an attempt to remove it. */
  datatype System = System(refZero: nat -> bool, present: nat -> bool, remove: nat -> nat)

  /** Second `c` is the first of the budget at which the reference count is zero. */
  ghost predicate FirstZero(s: System, budget: nat, c: nat) {
    c < budget && s.refZero(c) && forall t: nat :: t < c ==> !s.refZero(t)
  }

  /** Every attempt from second `c` up to `e` found the module and failed. */
  ghost predicate FailsUpTo(s: System, c: nat, e: nat) {
    forall t: nat :: c <= t < e ==> s.present(t) && s.remove(t) != 0
  }

  /** The attempts end at second `e`: out of budget, module gone, or removed. */
  ghost predicate EndsAt(s: System, budget: nat, c: nat, e: nat) {
    && c <= e <= budget && FailsUpTo(s, c, e)
    && (e < budget ==> !s.present(e) || s.remove(e) == 0)
  }

  /** The status handed back when the attempts began at `c` and ended at `e`. */
  function Status(s: System, budget: nat, c: nat, e: nat): nat
    requires c <= e
  {
    if e < budget && s.present(e) then 0 else if e == c then 0 else s.remove(e - 1)
  }

  lemma EndsOnce(s: System, budget: nat, c: nat, e: nat, e': nat)
    requires EndsAt(s, budget, c, e) && EndsAt(s, budget, c, e')
    ensures e == e'
  {
  }

  /** The waiting loop: the tries left over.  A reference count found at zero always leaves a try, so
      the branch of the caller for a used-up budget with a zero count is never taken. */
  method AwaitZero(s: System, budget: nat) returns (left: nat)
    ensures left <= budget
    ensures left > 0 ==> FirstZero(s, budget, budget - left)
    ensures left == 0 ==> forall t: nat :: t < budget ==> !s.refZero(t)
  {
    left := budget;
    while left != 0
      invariant left <= budget
      invariant forall t: nat :: t < budget - left ==> !s.refZero(t)
    {
      if s.refZero(budget - left) { return; }
      left := left - 1;
    }
  }

  /** The removing loop; `slept` counts the seconds used so far by both loops. */
  method Attempt(s: System, budget: nat, c: nat) returns (status: nat, ghost slept: nat)
    requires c < budget
    ensures EndsAt(s, budget, c, slept) && status == Status(s, budget, c, slept)
  {
    var left := budget - c;
    status := 0;
    while left != 0 && s.present(budget - left)
      invariant 0 <= left <= budget - c && FailsUpTo(s, c, budget - left)
      invariant status == if left == budget - c then 0 else s.remove(budget - left - 1)
      decreases left
    {
      status := s.remove(budget - left);
      if status == 0 { break; }
      left := left - 1;
    }
    slept := budget - left;
  }

  /** How the removal of a loaded module runs when modprobe cannot wait by itself. */
  ghost predicate Outcome(s: System, budget: nat, status: nat, slept: nat) {
    if forall t: nat :: t < budget ==> !s.refZero(t) then status == 1 && slept == budget
    else exists c: nat ::
      FirstZero(s, budget, c) && EndsAt(s, budget, c, slept) && status == Status(s, budget, c, slept)
  }

  /** `waiting` is the exit status of `modprobe --wait` where modprobe knows that option; the reference
      count is then asked for once, afterwards. */
  method PatientRmmod(s: System, budget: nat, removable: bool, waiting: Option<nat>)
    returns (status: nat, ghost slept: nat)
    ensures slept <= budget
    ensures !removable ==> status == 0
    ensures removable && waiting.Some? ==>
      (status == 0 <==> waiting.value == 0 && s.refZero(0)) && (waiting.value != 0 ==> status == waiting.value)
      && (waiting.value == 0 && !s.refZero(0) ==> status == 1)
    ensures removable && waiting.None? ==> Outcome(s, budget, status, slept)
  {
    slept := 0;
    if !removable { return 0, slept; }
    if waiting.Some? {
      status := if waiting.value != 0 then waiting.value else if s.refZero(0) then 0 else 1;
      return;
    }
    var left := AwaitZero(s, budget);
    if left == 0 { return 1, budget; }
    status, slept := Attempt(s, budget, budget - left);
    assert FirstZero(s, budget, budget - left);
  }

  /** The outcome is determined by the system's answers. */
  lemma OutcomeUnique(s: System, budget: nat, status: nat, slept: nat, status': nat, slept': nat)
    requires Outcome(s, budget, status, slept) && Outcome(s, budget, status', slept')
    ensures status == status' && slept == slept'
  {
    if t: nat :| t < budget && s.refZero(t) {
      var c :| FirstZero(s, budget, c) && EndsAt(s, budget, c, slept) && status == Status(s, budget, c, slept);
      var c' :| FirstZero(s, budget, c') && EndsAt(s, budget, c', slept') && status' == Status(s, budget, c', slept');
      assert c == c';
      EndsOnce(s, budget, c, slept, slept');
    }
  }

  /** The script reports success exactly when an attempt succeeds, or the module is gone by the time of
      the first attempt; a module that vanishes after a failed attempt is reported as not removed. */
  lemma SuccessIff(s: System, budget: nat, status: nat, slept: nat)
    requires Outcome(s, budget, status, slept)
    ensures status == 0 <==>
      exists c: nat, e: nat :: FirstZero(s, budget, c) && c <= e < budget && FailsUpTo(s, c, e)
        && ((s.present(e) && s.remove(e) == 0) || (e == c && !s.present(c)))
  {
    if t: nat :| t < budget && s.refZero(t) {
      var c :| FirstZero(s, budget, c) && EndsAt(s, budget, c, slept) && status == Status(s, budget, c, slept);
      if slept > c { assert s.remove(slept - 1) != 0; }
      forall c': nat, e: nat | FirstZero(s, budget, c') && c' <= e < budget && FailsUpTo(s, c', e)
        && ((s.present(e) && s.remove(e) == 0) || (e == c' && !s.present(c')))
        ensures status == 0
      {
        assert c' == c;
        EndsOnce(s, budget, c, slept, e);
      }
    } else {
      assert forall c: nat :: !FirstZero(s, budget, c);
    }
  }

  /** The module is gone after `c` seconds of failing attempts that began at once. */
  function Vanishing(c: nat, failure: nat): System {
    System(_ => true, t => t < c, _ => failure)
  }

  /** With any budget that outlasts the module, its removal by someone else is reported as a failure,
      with the status of the last attempt, unless it was gone before the first one. */
  lemma VanishedReportedAsFailure(c: nat, budget: nat, failure: nat, status: nat, slept: nat)
    requires c < budget && failure != 0
    requires Outcome(Vanishing(c, failure), budget, status, slept)
    ensures slept == c && !Vanishing(c, failure).present(slept)
    ensures status == if c == 0 then 0 else failure
  {
    var s := Vanishing(c, failure);
    assert s.refZero(0);
    var b :| FirstZero(s, budget, b) && EndsAt(s, budget, b, slept) && status == Status(s, budget, b, slept);
    assert b == 0;
    EndsOnce(s, budget, 0, slept, c);
  }
}
