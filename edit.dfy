/**
 * Edits: the value that turns one query match into one text replacement, the
 * single-scope selection of the match to rewrite (`get_edit`) and the
 * escalation of rules to the enclosing scopes of a previous edit
 * (`get_edit_for_ancestors`).
 *
 * The query engine, the lookup of the node spanning a range, the ancestor
 * context and the expansion of a deleted match to its associated elements
 * live outside this core; they are the function parameters `query`,
 * `nodeForRange`, `context` and `expand`.
 */
module Edits {
  import opened Optional
  import opened Text
  import opened Template
  import opened Escalation

  /** A half-open byte interval `[startByte, endByte)` of the source text. */
  datatype Range = Range(startByte: nat, endByte: nat)

  /** A query match: the matched text, its range, its captures and their indentation prefixes. */
  datatype Match = Match(
    matchedString: string,
    range: Range,
    substitutions: seq<(string, string)>,
    indentations: map<string, string>)

  /**
   * The substitutions come from a hash map, so no tag appears twice. This only
   * records where they come from; no proof of the model depends on it.
   */
  predicate UniqueTags(substitutions: seq<(string, string)>) {
    forall i, j :: 0 <= i < j < |substitutions| ==> substitutions[i].0 != substitutions[j].0
  }

  /** A match whose captures `instantiate` can substitute to the end. */
  type Candidate = m: Match | UniqueTags(m.substitutions) && Terminating(m.substitutions, m.indentations)
    witness Match([], Range(0, 0), [], map[])

  /** `s.trim().is_empty()`. */
  predicate IsBlank(s: string) {
    Trim(s) == []
  }

  /** A proposed replacement of the text of `pMatch`, made by the rule `matchedRule`. */
  datatype Edit = Edit(pMatch: Match, replacementString: string, matchedRule: string) {
    /** `Edit::is_delete`: a deletion exactly when the replacement is whitespace only. */
    predicate IsDelete()
      ensures IsDelete() <==> IsBlankText(replacementString)
    {
      TrimEmptyIffBlank(replacementString);
      IsBlank(replacementString)
    }
  }

  /** The two things this core asks of a rule. */
  datatype Rule = Rule(name: string, replace: string)

  /** The two buckets of follow-up rules in the rule graph, PARENT and PARENT_ITERATIVE. */
  datatype Bucket = Parent | ParentIterative

  /** `""` and `"   "` are deletions, `"x"` and `"  x  "` are not. */
  lemma IsDeleteExamples(m: Match)
    ensures Edit(m, "", "r").IsDelete() && Edit(m, "   ", "r").IsDelete()
    ensures !Edit(m, "x", "r").IsDelete() && !Edit(m, "  x  ", "r").IsDelete()
  {
    assert "x"[0] == 'x' && !IsWhitespace('x');
    assert "  x  "[2] == 'x';
  }

  /**
   * `Edit::new`: the replacement and the rule name are stored as given; the
   * match is expanded to its associated elements only for a deletion.
   */
  method NewEdit(pMatch: Match, replacementString: string, matchedRule: string, code: string,
                 expand: (Match, string) -> Match)
    returns (edit: Edit)
    ensures edit.replacementString == replacementString && edit.matchedRule == matchedRule
    ensures edit.IsDelete() ==> edit.pMatch == expand(pMatch, code)
    ensures !edit.IsDelete() ==> edit.pMatch == pMatch
  {
    edit := Edit(pMatch, replacementString, matchedRule);
    if edit.IsDelete() {
      edit := edit.(pMatch := expand(edit.pMatch, code));
    }
  }

  /** The label `Display` gives an edit; its test is on the untrimmed replacement. */
  function EditKind(e: Edit): (r: string)
    ensures r == "Delete code" <==> e.replacementString == []
    ensures r == "Update code" <==> e.replacementString != []
  {
    if e.replacementString != [] then "Update code" else "Delete code"
  }

  /** `t` ends `s`. */
  predicate EndsWith(s: string, t: string) {
    |t| <= |s| && s[|s| - |t|..] == t
  }

  /**
   * `Display for Edit`, without colours: the label, the range as rendered by
   * `showRange`, the matched text and, for an update only, the replacement.
   */
  function Describe(e: Edit, showRange: Range -> string): (r: string)
    ensures "\n " + EditKind(e) <= r
    ensures e.replacementString != [] ==> EndsWith(r, "\n to \n" + e.replacementString)
    ensures e.replacementString == [] ==> EndsWith(r, e.pMatch.matchedString + " ")
  {
    var snippet := e.pMatch.matchedString + " ";
    var snippet := if e.replacementString != [] then snippet + "\n to \n" + e.replacementString else snippet;
    var header := "\n " + EditKind(e);
    assert (header + (" at (" + showRange(e.pMatch.range) + ") -\n " + snippet))[..|header|] == header;
    header + (" at (" + showRange(e.pMatch.range) + ") -\n " + snippet)
  }

  /** A whitespace-only replacement is a deletion, yet `Display` labels it "Update code". */
  lemma BlankReplacementLabelledUpdate(m: Match)
    ensures Edit(m, "   ", "r").IsDelete() && EditKind(Edit(m, "   ", "r")) == "Update code"
  {
  }

  function StartByte(m: Match): nat {
    m.range.startByte
  }

  predicate SortedByStartDesc(s: seq<Candidate>) {
    forall i, j :: 0 <= i < j < |s| ==> StartByte(s[i]) >= StartByte(s[j])
  }

  /** Inserts `m` after every element with a greater start byte and before the rest. */
  function InsertByStart(m: Candidate, s: seq<Candidate>): (r: seq<Candidate>)
    requires SortedByStartDesc(s)
    ensures SortedByStartDesc(r)
    ensures multiset(r) == multiset(s) + multiset{m}
    ensures r != [] && (r[0] == m || (s != [] && r[0] == s[0]))
  {
    if s == [] || StartByte(s[0]) <= StartByte(m) then [m] + s
    else
      assert SortedByStartDesc(s[1..]);
      var rest := InsertByStart(m, s[1..]);
      InsertBehind(m, s, rest);
      [s[0]] + rest
  }

  /** The recursive case of `InsertByStart`: `m` goes behind the head of `s`. */
  lemma InsertBehind(m: Candidate, s: seq<Candidate>, rest: seq<Candidate>)
    requires SortedByStartDesc(s) && s != [] && StartByte(m) < StartByte(s[0])
    requires SortedByStartDesc(rest) && multiset(rest) == multiset(s[1..]) + multiset{m}
    requires rest != [] && (rest[0] == m || (|s| > 1 && rest[0] == s[1]))
    ensures SortedByStartDesc([s[0]] + rest)
    ensures multiset([s[0]] + rest) == multiset(s) + multiset{m}
  {
    assert StartByte(rest[0]) <= StartByte(s[0]);
    assert forall k :: 0 <= k < |rest| ==> StartByte(rest[k]) <= StartByte(rest[0]);
    assert s == [s[0]] + s[1..];
  }

  /**
   * `matches.sort_by(|a, b| b.start_byte.cmp(&a.start_byte))`: a stable sort
   * by descending start byte, modelled as an insertion sort that keeps equal
   * keys in input order.
   */
  function SortByStartDesc(s: seq<Candidate>): (r: seq<Candidate>)
    ensures SortedByStartDesc(r)
    ensures multiset(r) == multiset(s)
    decreases |s|
  {
    if s == [] then []
    else
      assert s == [s[0]] + s[1..];
      InsertByStart(s[0], SortByStartDesc(s[1..]))
  }

  /** `m` may be selected under the optional exclusive upper bound. */
  predicate Below(m: Match, bound: Option<nat>) {
    bound.None? || StartByte(m) < bound.value
  }

  /** `matches.iter().find(|m| m.range().start_byte < x)`. */
  function FindBelow(s: seq<Candidate>, x: nat): (r: Option<Candidate>)
    ensures r.None? <==> forall j :: 0 <= j < |s| ==> StartByte(s[j]) >= x
    ensures r.Some? ==> StartByte(r.value) < x
    ensures r.Some? ==>
      exists k :: 0 <= k < |s| && s[k] == r.value && forall j :: 0 <= j < k ==> StartByte(s[j]) >= x
    decreases |s|
  {
    if s == [] then None
    else if StartByte(s[0]) < x then Some(s[0])
    else
      var r := FindBelow(s[1..], x);
      FindBelowSkip(s, x, r);
      r
  }

  /** `find` past a first element that is not below the bound. */
  lemma FindBelowSkip(s: seq<Candidate>, x: nat, r: Option<Candidate>)
    requires s != [] && StartByte(s[0]) >= x
    requires r.None? <==> forall j :: 0 <= j < |s[1..]| ==> StartByte(s[1..][j]) >= x
    requires r.Some? ==>
      exists k :: 0 <= k < |s[1..]| && s[1..][k] == r.value && forall j :: 0 <= j < k ==> StartByte(s[1..][j]) >= x
    ensures r.None? <==> forall j :: 0 <= j < |s| ==> StartByte(s[j]) >= x
    ensures r.Some? ==>
      exists k :: 0 <= k < |s| && s[k] == r.value && forall j :: 0 <= j < k ==> StartByte(s[j]) >= x
  {
    assert forall j :: 1 <= j < |s| ==> s[j] == s[1..][j - 1];
    if r.Some? {
      var k :| 0 <= k < |s[1..]| && s[1..][k] == r.value && forall j :: 0 <= j < k ==> StartByte(s[1..][j]) >= x;
      assert s[k + 1] == r.value;
    }
  }

  /** The candidate `get_edit` picks from the sorted matches: the first, or the first below the bound. */
  function FirstBelow(s: seq<Candidate>, bound: Option<nat>): Option<Candidate> {
    match bound
    case None => if s == [] then None else Some(s[0])
    case Some(x) => FindBelow(s, x)
  }

  /** Sort, then pick. */
  function SelectMatch(matches: seq<Candidate>, bound: Option<nat>): Option<Candidate> {
    FirstBelow(SortByStartDesc(matches), bound)
  }

  /**
   * `matches[k]` is below the bound, no candidate below the bound starts
   * later, and every earlier candidate below the bound starts strictly
   * earlier.
   */
  predicate IsBest(matches: seq<Candidate>, bound: Option<nat>, k: int) {
    && 0 <= k < |matches|
    && Below(matches[k], bound)
    && (forall j :: 0 <= j < |matches| && Below(matches[j], bound) ==> StartByte(matches[j]) <= StartByte(matches[k]))
    && (forall j :: 0 <= j < k && Below(matches[j], bound) ==> StartByte(matches[j]) < StartByte(matches[k]))
  }

  /** At most one candidate is the best one. */
  lemma BestIsUnique(matches: seq<Candidate>, bound: Option<nat>, k1: int, k2: int)
    requires IsBest(matches, bound, k1) && IsBest(matches, bound, k2)
    ensures k1 == k2
  {
  }

  /** What picking from a sorted sequence returns once `m` has been inserted into it. */
  lemma {:induction false} FirstBelowInsert(m: Candidate, s: seq<Candidate>, bound: Option<nat>)
    requires SortedByStartDesc(s)
    ensures
      var before := FirstBelow(s, bound);
      FirstBelow(InsertByStart(m, s), bound) ==
        if Below(m, bound) && !(before.Some? && StartByte(before.value) > StartByte(m)) then Some(m) else before
    decreases |s|
  {
    var r := InsertByStart(m, s);
    var before := FirstBelow(s, bound);
    if s == [] || StartByte(s[0]) <= StartByte(m) {
      assert r == [m] + s;
      if bound.Some? {
        assert r[1..] == s;
        if before.Some? {
          assert StartByte(before.value) <= StartByte(s[0]);
        }
      }
    } else {
      var rest := InsertByStart(m, s[1..]);
      assert r == [s[0]] + rest;
      if bound.Some? && !Below(s[0], bound) {
        assert r[1..] == rest;
        FirstBelowInsert(m, s[1..], bound);
      }
    }
  }

  /**
   * `get_edit`'s selection: nothing when no candidate is below the bound;
   * otherwise the candidate with the greatest start byte below the bound,
   * the earliest one in input order among equals (the sort is stable).
   */
  lemma {:induction false} SelectMatchIsBest(matches: seq<Candidate>, bound: Option<nat>)
    ensures SelectMatch(matches, bound).None? <==> forall j :: 0 <= j < |matches| ==> !Below(matches[j], bound)
    ensures SelectMatch(matches, bound).Some? ==>
      exists k :: IsBest(matches, bound, k) && matches[k] == SelectMatch(matches, bound).value
    decreases |matches|
  {
    if matches != [] {
      var head, tail := matches[0], matches[1..];
      SelectMatchIsBest(tail, bound);
      FirstBelowInsert(head, SortByStartDesc(tail), bound);
      var before := SelectMatch(tail, bound);
      if before.None? {
        SelectFromNothing(matches, bound);
      } else {
        var k' :| IsBest(tail, bound, k') && tail[k'] == before.value;
        SelectFromBest(matches, bound, k');
      }
    }
  }

  /** The inductive step of `SelectMatchIsBest` when nothing in the tail is below the bound. */
  lemma SelectFromNothing(matches: seq<Candidate>, bound: Option<nat>)
    requires matches != []
    requires forall j :: 0 <= j < |matches[1..]| ==> !Below(matches[1..][j], bound)
    ensures Below(matches[0], bound) ==> IsBest(matches, bound, 0)
    ensures !Below(matches[0], bound) ==> forall j :: 0 <= j < |matches| ==> !Below(matches[j], bound)
  {
    assert forall j :: 1 <= j < |matches| ==> matches[j] == matches[1..][j - 1];
  }

  /** The inductive step of `SelectMatchIsBest` when `k'` is the best of the tail. */
  lemma SelectFromBest(matches: seq<Candidate>, bound: Option<nat>, k': int)
    requires matches != [] && IsBest(matches[1..], bound, k')
    ensures Below(matches[0], bound) && StartByte(matches[k' + 1]) <= StartByte(matches[0]) ==>
      IsBest(matches, bound, 0)
    ensures !(Below(matches[0], bound) && StartByte(matches[k' + 1]) <= StartByte(matches[0])) ==>
      IsBest(matches, bound, k' + 1)
  {
    assert forall j :: 1 <= j < |matches| ==> matches[j] == matches[1..][j - 1];
  }

  /** When some candidate is the best one, it is the one selected. */
  lemma BestIsSelected(matches: seq<Candidate>, bound: Option<nat>, k: int)
    requires IsBest(matches, bound, k)
    ensures SelectMatch(matches, bound) == Some(matches[k])
  {
    SelectMatchIsBest(matches, bound);
    assert !(forall j :: 0 <= j < |matches| ==> !Below(matches[j], bound));
    var k' :| IsBest(matches, bound, k') && matches[k'] == SelectMatch(matches, bound).value;
    BestIsUnique(matches, bound, k, k');
  }

  /** Candidates given in ascending start order: with no bound, the last one is selected. */
  lemma SelectionWithoutBound(a: Candidate, b: Candidate, c: Candidate)
    requires StartByte(a) < StartByte(b) < StartByte(c)
    ensures SelectMatch([a, b, c], None) == Some(c)
  {
    assert IsBest([a, b, c], None, 2);
    BestIsSelected([a, b, c], None, 2);
  }

  /** A bound between the second and the third start byte selects the second candidate. */
  lemma SelectionBelowBound(a: Candidate, b: Candidate, c: Candidate, x: nat)
    requires StartByte(a) < StartByte(b) < x <= StartByte(c)
    ensures SelectMatch([a, b, c], Some(x)) == Some(b)
  {
    assert IsBest([a, b, c], Some(x), 1);
    BestIsSelected([a, b, c], Some(x), 1);
  }

  /** A bound at or below every start byte selects nothing. */
  lemma SelectionNothingBelowBound(a: Candidate, b: Candidate, c: Candidate, x: nat)
    requires x <= StartByte(a) && x <= StartByte(b) && x <= StartByte(c)
    ensures SelectMatch([a, b, c], Some(x)) == None
  {
    var s := [a, b, c];
    SelectMatchIsBest(s, Some(x));
    assert !Below(s[0], Some(x)) && !Below(s[1], Some(x)) && !Below(s[2], Some(x));
  }

  /** The sort is stable: of two candidates with the same start byte, the earlier one is selected. */
  lemma SelectionTieKeepsInputOrder(a: Candidate, b: Candidate)
    requires StartByte(a) == StartByte(b)
    ensures SelectMatch([a, b], None) == Some(a)
  {
    assert IsBest([a, b], None, 0);
    BestIsSelected([a, b], None, 0);
  }

  /** The edit `get_edit` returns for the candidates `matches`. */
  function EditFor(rule: Rule, matches: seq<Candidate>, bound: Option<nat>, code: string,
                   expand: (Match, string) -> Match): Option<Edit>
  {
    match SelectMatch(matches, bound)
    case None => None
    case Some(m) =>
      var replacement := Instantiated(rule.replace, m.substitutions, m.indentations);
      Some(Edit(if IsBlank(replacement) then expand(m, code) else m, replacement, rule.name))
  }

  /**
   * `get_edit` yields no edit exactly when no candidate is below the bound;
   * otherwise an edit of the best candidate that carries the rule's name and
   * the rule's template instantiated with that candidate's captures.
   */
  lemma EditForSpec(rule: Rule, matches: seq<Candidate>, bound: Option<nat>, code: string,
                    expand: (Match, string) -> Match)
    ensures EditFor(rule, matches, bound, code, expand).None? <==>
      forall j :: 0 <= j < |matches| ==> !Below(matches[j], bound)
    ensures EditFor(rule, matches, bound, code, expand).Some? ==>
      var e := EditFor(rule, matches, bound, code, expand).value;
      && e.matchedRule == rule.name
      && (exists k ::
            && IsBest(matches, bound, k)
            && e.replacementString == Instantiated(rule.replace, matches[k].substitutions, matches[k].indentations)
            && e.pMatch == (if e.IsDelete() then expand(matches[k], code) else matches[k]))
  {
    SelectMatchIsBest(matches, bound);
  }

  /** `SourceCodeUnit::get_edit`. */
  method GetEdit<N>(rule: Rule, node: N, recursive: bool, startByte: Option<nat>,
                    query: (Rule, N, bool) -> seq<Candidate>, code: string, expand: (Match, string) -> Match)
    returns (edit: Option<Edit>)
    ensures edit == EditFor(rule, query(rule, node, recursive), startByte, code, expand)
  {
    var matches := query(rule, node, recursive);
    matches := SortByStartDesc(matches);
    var matchOpt := FirstBelow(matches, startByte);
    match matchOpt {
      case None =>
        edit := None;
      case Some(pMatch) =>
        var replacementString := Instantiate(rule.replace, pMatch.substitutions, pMatch.indentations);
        var e := NewEdit(pMatch, replacementString, rule.name, code, expand);
        edit := Some(e);
    }
  }

  /** One attempt of escalation: `get_edit(rule, ancestor, false, None)`. */
  function Attempt<N>(query: (Rule, N, bool) -> seq<Candidate>, code: string, expand: (Match, string) -> Match)
    : (Rule, N) -> Option<Edit>
  {
    (rule: Rule, ancestor: N) => EditFor(rule, query(rule, ancestor, false), None, code, expand)
  }

  /**
   * `SourceCodeUnit::get_edit_for_ancestors`: the PARENT rules, rule by rule,
   * over the changed node and its ancestors; then, only if none succeeded,
   * the PARENT_ITERATIVE rules, ancestor by ancestor.
   */
  method GetEditForAncestors<N>(previousEditRange: Range, depth: nat, nextRules: map<Bucket, seq<Rule>>,
                                root: N, nodeForRange: (N, nat, nat) -> N, context: (N, string, nat) -> seq<N>,
                                query: (Rule, N, bool) -> seq<Candidate>, code: string,
                                expand: (Match, string) -> Match)
    returns (edit: Option<Edit>)
    requires Parent in nextRules && ParentIterative in nextRules
    ensures edit == Escalate(nextRules[Parent], nextRules[ParentIterative],
                             context(nodeForRange(root, previousEditRange.startByte, previousEditRange.endByte), code, depth),
                             Attempt(query, code, expand))
  {
    var changedNode := nodeForRange(root, previousEditRange.startByte, previousEditRange.endByte);
    edit := RulePriorityPass(nextRules[Parent], changedNode, depth, context, query, code, expand);
    if edit.None? {
      edit := DistancePriorityPass(nextRules[ParentIterative], changedNode, depth, context, query, code, expand);
    }
  }

  /** The first loop nest of `get_edit_for_ancestors`: rules outside, ancestors inside. */
  method RulePriorityPass<N>(rules: seq<Rule>, changedNode: N, depth: nat, context: (N, string, nat) -> seq<N>,
                             query: (Rule, N, bool) -> seq<Candidate>, code: string,
                             expand: (Match, string) -> Match)
    returns (edit: Option<Edit>)
    ensures edit == RulePriority(rules, context(changedNode, code, depth), Attempt(query, code, expand))
  {
    ghost var ancestors := context(changedNode, code, depth);
    ghost var attempt := Attempt(query, code, expand);
    for i := 0 to |rules|
      invariant RulePriority(rules, ancestors, attempt) == RulePriority(rules[i..], ancestors, attempt)
    {
      assert rules[i..][1..] == rules[i + 1..];
      var scopes := context(changedNode, code, depth);
      for j := 0 to |scopes|
        invariant FirstForRule(rules[i], ancestors, attempt) == FirstForRule(rules[i], ancestors[j..], attempt)
      {
        assert ancestors[j..][1..] == ancestors[j + 1..];
        var e := GetEdit(rules[i], scopes[j], false, None, query, code, expand);
        assert e == attempt(rules[i], ancestors[j]);
        if e.Some? {
          return e;
        }
      }
    }
    edit := None;
  }

  /** The second loop nest of `get_edit_for_ancestors`: ancestors outside, rules inside. */
  method DistancePriorityPass<N>(rules: seq<Rule>, changedNode: N, depth: nat, context: (N, string, nat) -> seq<N>,
                                 query: (Rule, N, bool) -> seq<Candidate>, code: string,
                                 expand: (Match, string) -> Match)
    returns (edit: Option<Edit>)
    ensures edit == DistancePriority(context(changedNode, code, depth), rules, Attempt(query, code, expand))
  {
    ghost var attempt := Attempt(query, code, expand);
    var scopes := context(changedNode, code, depth);
    for j := 0 to |scopes|
      invariant DistancePriority(scopes, rules, attempt) == DistancePriority(scopes[j..], rules, attempt)
    {
      assert scopes[j..][1..] == scopes[j + 1..];
      for i := 0 to |rules|
        invariant FirstAtAncestor(rules, scopes[j], attempt) == FirstAtAncestor(rules[i..], scopes[j], attempt)
      {
        assert rules[i..][1..] == rules[i + 1..];
        var e := GetEdit(rules[i], scopes[j], false, None, query, code, expand);
        assert e == attempt(rules[i], scopes[j]);
        if e.Some? {
          return e;
        }
      }
    }
    edit := None;
  }
}
