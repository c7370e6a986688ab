/**
 * The two first-success searches behind ancestor escalation, independent of
 * what a rule, an ancestor or an edit is. `attempt(rule, ancestor)` stands for
 * one single-scope attempt; the searches return its first success.
 *
 * The rule-priority search (bucket PARENT) runs rules in the outer loop and
 * ancestors, innermost first, in the inner loop; the distance-priority search
 * (bucket PARENT_ITERATIVE) swaps the two loops.
 */
module Escalation {
  import opened Optional

  /** The first success of `rule` over `ancestors`, innermost first. */
  function FirstForRule<R, N, E>(rule: R, ancestors: seq<N>, attempt: (R, N) -> Option<E>): Option<E>
    decreases |ancestors|
  {
    if ancestors == [] then None
    else match attempt(rule, ancestors[0])
      case Some(e) => Some(e)
      case None => FirstForRule(rule, ancestors[1..], attempt)
  }

  /** Rule-priority search: every ancestor for one rule before the next rule. */
  function RulePriority<R, N, E>(rules: seq<R>, ancestors: seq<N>, attempt: (R, N) -> Option<E>): Option<E>
    decreases |rules|
  {
    if rules == [] then None
    else match FirstForRule(rules[0], ancestors, attempt)
      case Some(e) => Some(e)
      case None => RulePriority(rules[1..], ancestors, attempt)
  }

  /** The first success at `ancestor` over `rules`, in their given order. */
  function FirstAtAncestor<R, N, E>(rules: seq<R>, ancestor: N, attempt: (R, N) -> Option<E>): Option<E>
    decreases |rules|
  {
    if rules == [] then None
    else match attempt(rules[0], ancestor)
      case Some(e) => Some(e)
      case None => FirstAtAncestor(rules[1..], ancestor, attempt)
  }

  /** Distance-priority search: every rule at one ancestor before the next ancestor out. */
  function DistancePriority<R, N, E>(ancestors: seq<N>, rules: seq<R>, attempt: (R, N) -> Option<E>): Option<E>
    decreases |ancestors|
  {
    if ancestors == [] then None
    else match FirstAtAncestor(rules, ancestors[0], attempt)
      case Some(e) => Some(e)
      case None => DistancePriority(ancestors[1..], rules, attempt)
  }

  /** Both passes: the distance-priority pass runs only when the rule-priority pass finds nothing. */
  function Escalate<R, N, E>(parentRules: seq<R>, iterativeRules: seq<R>, ancestors: seq<N>, attempt: (R, N) -> Option<E>): Option<E>
  {
    match RulePriority(parentRules, ancestors, attempt)
    case Some(e) => Some(e)
    case None => DistancePriority(ancestors, iterativeRules, attempt)
  }

  /** Every attempt of every rule at every ancestor fails. */
  ghost predicate AllFail<R, N, E>(rules: seq<R>, ancestors: seq<N>, attempt: (R, N) -> Option<E>) {
    forall i, j :: 0 <= i < |rules| && 0 <= j < |ancestors| ==> attempt(rules[i], ancestors[j]).None?
  }

  lemma {:induction false} FirstForRuleNone<R, N, E>(rule: R, ancestors: seq<N>, attempt: (R, N) -> Option<E>)
    ensures FirstForRule(rule, ancestors, attempt).None? <==>
      forall j :: 0 <= j < |ancestors| ==> attempt(rule, ancestors[j]).None?
    decreases |ancestors|
  {
    if ancestors != [] {
      FirstForRuleNone(rule, ancestors[1..], attempt);
      assert forall j :: 1 <= j < |ancestors| ==> ancestors[j] == ancestors[1..][j - 1];
    }
  }

  lemma {:induction false} FirstForRuleAt<R, N, E>(rule: R, ancestors: seq<N>, attempt: (R, N) -> Option<E>, j: nat)
    requires j < |ancestors| && attempt(rule, ancestors[j]).Some?
    requires forall j' :: 0 <= j' < j ==> attempt(rule, ancestors[j']).None?
    ensures FirstForRule(rule, ancestors, attempt) == attempt(rule, ancestors[j])
    decreases j
  {
    if j > 0 {
      assert attempt(rule, ancestors[0]).None?;
      assert ancestors[1..][j - 1] == ancestors[j];
      FirstForRuleAt(rule, ancestors[1..], attempt, j - 1);
    }
  }

  /** The rule-priority pass finds nothing exactly when every attempt fails. */
  lemma {:induction false} RulePriorityNone<R, N, E>(rules: seq<R>, ancestors: seq<N>, attempt: (R, N) -> Option<E>)
    ensures RulePriority(rules, ancestors, attempt).None? <==> AllFail(rules, ancestors, attempt)
    decreases |rules|
  {
    if rules != [] {
      FirstForRuleNone(rules[0], ancestors, attempt);
      RulePriorityNone(rules[1..], ancestors, attempt);
      assert forall i :: 1 <= i < |rules| ==> rules[i] == rules[1..][i - 1];
    }
  }

  /**
   * The rule-priority pass returns the success at (rule `i`, ancestor `j`)
   * when every earlier rule failed at every ancestor and rule `i` failed at
   * every ancestor nearer than `j`.
   */
  lemma {:induction false} RulePriorityAt<R, N, E>(rules: seq<R>, ancestors: seq<N>, attempt: (R, N) -> Option<E>, i: nat, j: nat)
    requires i < |rules| && j < |ancestors| && attempt(rules[i], ancestors[j]).Some?
    requires forall i', j' :: 0 <= i' < i && 0 <= j' < |ancestors| ==> attempt(rules[i'], ancestors[j']).None?
    requires forall j' :: 0 <= j' < j ==> attempt(rules[i], ancestors[j']).None?
    ensures RulePriority(rules, ancestors, attempt) == attempt(rules[i], ancestors[j])
    decreases i
  {
    if i == 0 {
      FirstForRuleAt(rules[0], ancestors, attempt, j);
    } else {
      FirstForRuleNone(rules[0], ancestors, attempt);
      assert rules[1..][i - 1] == rules[i];
      assert forall i' :: 0 <= i' < i - 1 ==> rules[1..][i'] == rules[i' + 1];
      RulePriorityAt(rules[1..], ancestors, attempt, i - 1, j);
    }
  }

  lemma {:induction false} FirstAtAncestorNone<R, N, E>(rules: seq<R>, ancestor: N, attempt: (R, N) -> Option<E>)
    ensures FirstAtAncestor(rules, ancestor, attempt).None? <==>
      forall i :: 0 <= i < |rules| ==> attempt(rules[i], ancestor).None?
    decreases |rules|
  {
    if rules != [] {
      FirstAtAncestorNone(rules[1..], ancestor, attempt);
      assert forall i :: 1 <= i < |rules| ==> rules[i] == rules[1..][i - 1];
    }
  }

  lemma {:induction false} FirstAtAncestorAt<R, N, E>(rules: seq<R>, ancestor: N, attempt: (R, N) -> Option<E>, i: nat)
    requires i < |rules| && attempt(rules[i], ancestor).Some?
    requires forall i' :: 0 <= i' < i ==> attempt(rules[i'], ancestor).None?
    ensures FirstAtAncestor(rules, ancestor, attempt) == attempt(rules[i], ancestor)
    decreases i
  {
    if i > 0 {
      assert attempt(rules[0], ancestor).None?;
      assert rules[1..][i - 1] == rules[i];
      FirstAtAncestorAt(rules[1..], ancestor, attempt, i - 1);
    }
  }

  /** The distance-priority pass finds nothing exactly when every attempt fails. */
  lemma {:induction false} DistancePriorityNone<R, N, E>(ancestors: seq<N>, rules: seq<R>, attempt: (R, N) -> Option<E>)
    ensures DistancePriority(ancestors, rules, attempt).None? <==> AllFail(rules, ancestors, attempt)
    decreases |ancestors|
  {
    if ancestors != [] {
      FirstAtAncestorNone(rules, ancestors[0], attempt);
      DistancePriorityNone(ancestors[1..], rules, attempt);
      assert forall j :: 1 <= j < |ancestors| ==> ancestors[j] == ancestors[1..][j - 1];
    }
  }

  /**
   * The distance-priority pass returns the success at (ancestor `j`, rule
   * `i`) when every rule failed at every nearer ancestor and every earlier
   * rule failed at ancestor `j`.
   */
  lemma {:induction false} DistancePriorityAt<R, N, E>(ancestors: seq<N>, rules: seq<R>, attempt: (R, N) -> Option<E>, j: nat, i: nat)
    requires i < |rules| && j < |ancestors| && attempt(rules[i], ancestors[j]).Some?
    requires forall j', i' :: 0 <= j' < j && 0 <= i' < |rules| ==> attempt(rules[i'], ancestors[j']).None?
    requires forall i' :: 0 <= i' < i ==> attempt(rules[i'], ancestors[j]).None?
    ensures DistancePriority(ancestors, rules, attempt) == attempt(rules[i], ancestors[j])
    decreases j
  {
    if j == 0 {
      FirstAtAncestorAt(rules, ancestors[0], attempt, i);
    } else {
      FirstAtAncestorNone(rules, ancestors[0], attempt);
      assert ancestors[1..][j - 1] == ancestors[j];
      assert forall j' :: 0 <= j' < j - 1 ==> ancestors[1..][j'] == ancestors[j' + 1];
      DistancePriorityAt(ancestors[1..], rules, attempt, j - 1, i);
    }
  }

  /** Escalation finds nothing exactly when every attempt of both passes fails. */
  lemma EscalateNone<R, N, E>(parentRules: seq<R>, iterativeRules: seq<R>, ancestors: seq<N>, attempt: (R, N) -> Option<E>)
    ensures Escalate(parentRules, iterativeRules, ancestors, attempt).None? <==>
      AllFail(parentRules, ancestors, attempt) && AllFail(iterativeRules, ancestors, attempt)
  {
    RulePriorityNone(parentRules, ancestors, attempt);
    DistancePriorityNone(ancestors, iterativeRules, attempt);
  }

  /**
   * Escalation answers from the rule-priority pass whenever some PARENT
   * attempt succeeds, and from the distance-priority pass only otherwise.
   */
  lemma EscalatePassOrder<R, N, E>(parentRules: seq<R>, iterativeRules: seq<R>, ancestors: seq<N>, attempt: (R, N) -> Option<E>)
    ensures !AllFail(parentRules, ancestors, attempt) ==>
      Escalate(parentRules, iterativeRules, ancestors, attempt) == RulePriority(parentRules, ancestors, attempt)
      && RulePriority(parentRules, ancestors, attempt).Some?
    ensures AllFail(parentRules, ancestors, attempt) ==>
      Escalate(parentRules, iterativeRules, ancestors, attempt) == DistancePriority(ancestors, iterativeRules, attempt)
  {
    RulePriorityNone(parentRules, ancestors, attempt);
  }

  /**
   * Rules [1, 2] and ancestors [10 (inner), 20 (outer)], rule 1 succeeding
   * only at 20 and rule 2 only at 10: the rule-priority pass picks rule 1 at
   * the outer ancestor, the distance-priority pass rule 2 at the inner one.
   */
  lemma PriorityPolicies()
    ensures
      var attempt := (r: int, a: int) => if (r == 1 && a == 20) || (r == 2 && a == 10) then Some((r, a)) else None;
      && RulePriority([1, 2], [10, 20], attempt) == Some((1, 20))
      && DistancePriority([10, 20], [1, 2], attempt) == Some((2, 10))
  {
    var attempt := (r: int, a: int) => if (r == 1 && a == 20) || (r == 2 && a == 10) then Some((r, a)) else None;
    RulePriorityAt([1, 2], [10, 20], attempt, 0, 1);
    DistancePriorityAt([10, 20], [1, 2], attempt, 0, 1);
  }
}
