# Piranha edits: instantiation, selection and ancestor escalation

This project is a Dafny model of the edit core of Piranha, a rule-driven
structural rewriting engine. The model covers `src/models/edit.rs`. That file
turns one query match into one text edit. After an edit has been applied, it
also looks for the next edit in the scopes that enclose the changed node.

The model has five modules:

- `Optional` (`text.dfy`): the `Option` datatype.
- `Text` (`text.dfy`): the parts of Rust's `str` that the core relies on.
  These are `find`, `rfind`, `lines`, `join("\n")`, `replace`, `trim` and
  `char::is_whitespace`, all on `seq<char>`.
- `Template` (`template.dfy`): `SourceCodeUnit::instantiate` with its helpers
  `normalize_indentation` and `apply_indentation`.
  - A tag with an indentation entry is substituted one occurrence at a time.
    The position is searched again after every splice, and each occurrence is
    re-indented to the whitespace that begins the marker's line.
  - Any other tag goes through a single-pass `replace` of `@tag`, then of `:[tag]`.
  - `ApplyIndentation`, `ReplaceMarker` and `Instantiate` are methods with the
    source's loops. Each is proved equal to a specification function
    (`Reindented`, `SpliceAll`, `Instantiated`), and lemmas state what those
    functions guarantee.
- `Escalation` (`escalation.dfy`): the two first-success searches of
  `get_edit_for_ancestors`, generic in what a rule, an ancestor and an edit are.
  - PARENT is rule-major: rules in the outer loop, ancestors innermost-first inside.
  - PARENT_ITERATIVE is ancestor-major: the two loops are swapped.
  - Lemmas pin down which attempt each search returns, and when it returns nothing.
- `Edits` (`edit.dfy`): the `Edit` value, `Edit::new`, `is_delete` and the
  `Display` text. It also holds `get_edit`, a stable sort by descending start
  byte followed by `first` or `find` below a bound, and `get_edit_for_ancestors`.

Collaborators outside this file are function parameters:

- `query`: the query engine behind `get_matches`.
- `nodeForRange`: `get_node_for_range`.
- `context`: `get_context`.
- `expand`: `Match::expand_to_associated_matches`.
- `showRange`: the `Debug` rendering of a range.

A hash map of substitutions becomes a sequence of (tag, substitute) pairs with
unique tags. They are processed in sequence order, which stands for the map's
unspecified iteration order.

Two behaviours of the code are easy to miss:

- Normalisation and re-indentation go through `str::lines`, which drops a
  `'\r'` before each `'\n'` and drops a final line break. So both helpers lose
  a trailing newline: `"a\n"` becomes `"a"` (`Text.TrailingNewlineDropped`).
- `Display` tests the untrimmed replacement. A whitespace-only replacement is a
  deletion for `is_delete` but is labelled "Update code"
  (`Edits.BlankReplacementLabelledUpdate`).

## Model

| member | source | states |
|---|---|---|
| `Text.TrimEmptyIffBlank` | src/models/edit.rs:75-77 | `trim().is_empty()` holds exactly when every character is Unicode whitespace |
| `Text.LeadingWhitespace` | src/models/edit.rs:205-208 | `take_while(is_whitespace)` gives a whitespace-only prefix that is maximal: the next character, if any, is not whitespace |
| `Text.TrimEnd` | src/models/edit.rs:76 | the trailing trim keeps the longest prefix that does not end in whitespace, and what it drops is whitespace only |
| `Text.Find` | src/models/edit.rs:202 | `find` returns the first position where the key occurs, and nothing exactly when it occurs nowhere |
| `Text.LastIndexOf` | src/models/edit.rs:204 | `rfind('\n')` returns a position holding `'\n'` with no `'\n'` after it, and nothing exactly when there is no `'\n'` |
| `Text.IndexOf` | src/models/edit.rs:167 | the search `lines()` uses for its next `'\n'` returns a position holding the character with none before it, and nothing exactly when the text lacks it |
| `Text.ReplaceAll` | src/models/edit.rs:217-220 | `replace` leaves a text without the key unchanged; otherwise it keeps the text before the first occurrence, puts the substitute there and resumes the scan after it |
| `Text.ReplaceIsSinglePass` | src/models/edit.rs:217-220 | `replace` never rescans what it produced, so `"aab"` with `"ab"` replaced by `"b"` still contains `"ab"` |
| `Text.Lines` | src/models/edit.rs:167 | `lines()` yields at least one line exactly when the text is non-empty |
| `Text.LinesAvoid` | src/models/edit.rs:167 | no line of `lines()` contains a line break or a character the text lacks |
| `Text.JoinAvoid` | src/models/edit.rs:176 | `join("\n")` of lines that lack a character other than `'\n'` lacks it too |
| `Text.JoinLinesRoundTrip` | src/models/edit.rs:165-177 | joining the lines of a text with no `'\r'` and no final line break gives the text back |
| `Text.TrailingNewlineDropped` | src/models/edit.rs:165-177 | `"a\n"` has the single line `"a"`, so splitting and joining it loses the final newline |
| `Template.NormalizedLines` | src/models/edit.rs:165-177 | normalisation keeps the line count; a line that starts with the prefix becomes the rest after the prefix, and any other line is unchanged |
| `Template.NormalizeAvoids` | src/models/edit.rs:165-177 | normalisation adds no character other than `'\n'` |
| `Template.NormalizeWithoutPrefixUnchanged` | src/models/edit.rs:165-177 | when no line starts with the prefix, and the text has no `'\r'` and no final line break, normalisation returns the text |
| `Template.IndentedLines` | src/models/edit.rs:180-189 | re-indentation keeps the line count and the first line, and puts the indentation before every later line |
| `Template.ApplyIndentation` | src/models/edit.rs:180-189 | the in-place loop over the line vector yields the joined re-indented lines |
| `Template.ReindentByNothingUnchanged` | src/models/edit.rs:180-189 | re-indenting by the empty string returns a text with no `'\r'` and no final line break unchanged |
| `Template.ReindentedAvoids` | src/models/edit.rs:180-189 | re-indenting by whitespace adds no character other than whitespace and `'\n'` |
| `Template.LineStart` | src/models/edit.rs:204 | the marker's line starts at 0 or just after a `'\n'`, and no `'\n'` lies between that start and the marker |
| `Template.DestinationIndent` | src/models/edit.rs:204-208 | the destination indentation is the maximal whitespace run that begins the marker's line and stops at the marker |
| `Template.SpliceAtShape` | src/models/edit.rs:210-214 | one splice keeps the text before the occurrence and the text after the marker; in between, the substitute's first line is unchanged and each later line is prefixed by the destination indentation |
| `Template.SpliceAllStep` | src/models/edit.rs:202-215 | splicing the first occurrence leaves the loop's final result unchanged and removes one copy of the marker's first character |
| `Template.SpliceFirst` | src/models/edit.rs:204-214 | the loop body computes the splice of the re-indented substitute at the found position |
| `Template.SpliceDecreases` | src/models/edit.rs:202-215 | each splice removes one copy of the marker's first character, so the `while let` loop terminates |
| `Template.SpliceAll` | src/models/edit.rs:202-215 | after the loop for one spelling, that spelling no longer occurs in the output |
| `Template.ReplaceMarker` | src/models/edit.rs:201-216 | the find-and-splice loop computes `SpliceAll` |
| `Template.Instantiate` | src/models/edit.rs:156-224 | `instantiate` computes `Instantiated`, and returns the template unchanged when there are no substitutions |
| `Template.UnmarkedUnchanged` | src/models/edit.rs:191-222 | a tag neither of whose markers occurs leaves the output unchanged, with or without an indentation entry |
| `Template.NoMarkersUnchanged` | src/models/edit.rs:156-224 | a template with no `@` and no `:[` is returned unchanged for any substitutions |
| `Escalation.FirstForRuleNone` | src/models/edit.rs:137-141 | the inner PARENT loop finds nothing exactly when the rule fails at every ancestor |
| `Escalation.FirstForRuleAt` | src/models/edit.rs:137-141 | the inner PARENT loop returns the success at the innermost ancestor where the rule succeeds |
| `Escalation.RulePriorityNone` | src/models/edit.rs:136-142 | the PARENT pass finds nothing exactly when every (rule, ancestor) attempt fails |
| `Escalation.RulePriorityAt` | src/models/edit.rs:136-142 | the PARENT pass returns the first success in rule-major order |
| `Escalation.FirstAtAncestorNone` | src/models/edit.rs:146-150 | the inner PARENT_ITERATIVE loop finds nothing exactly when every rule fails at the ancestor |
| `Escalation.FirstAtAncestorAt` | src/models/edit.rs:146-150 | the inner PARENT_ITERATIVE loop returns the success of the first rule that succeeds at the ancestor |
| `Escalation.DistancePriorityNone` | src/models/edit.rs:145-151 | the PARENT_ITERATIVE pass finds nothing exactly when every (ancestor, rule) attempt fails |
| `Escalation.DistancePriorityAt` | src/models/edit.rs:145-151 | the PARENT_ITERATIVE pass returns the first success in ancestor-major order |
| `Escalation.EscalateNone` | src/models/edit.rs:113-154 | escalation returns nothing exactly when every attempt of both passes fails |
| `Escalation.EscalatePassOrder` | src/models/edit.rs:135-153 | when some PARENT attempt succeeds, the PARENT pass decides; only when all fail is the PARENT_ITERATIVE pass consulted |
| `Escalation.PriorityPolicies` | src/models/edit.rs:135-151 | with rule 1 succeeding only at the outer ancestor and rule 2 only at the inner one, PARENT picks rule 1 and PARENT_ITERATIVE picks rule 2 |
| `Edits.Edit.IsDelete` | src/models/edit.rs:75-77 | `is_delete` holds exactly when the replacement is whitespace only |
| `Edits.IsDeleteExamples` | src/models/edit.rs:75-77 | `""` and `"   "` are deletions; `"x"` and `"  x  "` are not |
| `Edits.NewEdit` | src/models/edit.rs:48-60 | `Edit::new` stores the replacement and rule name verbatim; the match is expanded only for a deletion and is otherwise untouched |
| `Edits.EditKind` | src/models/edit.rs:95-100 | the label is "Delete code" exactly when the replacement is the empty string, else "Update code" |
| `Edits.Describe` | src/models/edit.rs:90-107 | the text starts with the label; it ends with `"\n to \n"` and the replacement for an update, and with the matched text and a space for a deletion |
| `Edits.BlankReplacementLabelledUpdate` | src/models/edit.rs:95-100 | a whitespace-only replacement is a deletion yet is labelled "Update code" |
| `Edits.InsertByStart` | src/models/edit.rs:233 | inserting into a sequence sorted by descending start byte keeps it sorted and adds exactly that element |
| `Edits.SortByStartDesc` | src/models/edit.rs:233 | the sort yields a permutation sorted by descending start byte |
| `Edits.FindBelow` | src/models/edit.rs:236 | `find` returns nothing exactly when no element starts below the bound; otherwise it returns the first element that does |
| `Edits.FirstBelowInsert` | src/models/edit.rs:233-239 | inserting an element changes the pick only when the element is eligible and no eligible element starts later |
| `Edits.SelectMatchIsBest` | src/models/edit.rs:232-239 | selection returns nothing exactly when no candidate is below the bound; otherwise it returns the candidate with the greatest start byte below the bound, the earliest in input order among ties |
| `Edits.BestIsUnique` | src/models/edit.rs:232-239 | that best candidate is unique |
| `Edits.BestIsSelected` | src/models/edit.rs:232-239 | whenever some candidate is the best one, that candidate is what selection returns |
| `Edits.SelectionWithoutBound` | src/models/edit.rs:238 | for three candidates given in ascending start order and no bound, the last one is selected |
| `Edits.SelectionBelowBound` | src/models/edit.rs:236 | for three candidates in ascending start order and a bound above the second start byte but not above the third, the second one is selected |
| `Edits.SelectionNothingBelowBound` | src/models/edit.rs:236 | a bound at or below every start byte selects nothing |
| `Edits.SelectionTieKeepsInputOrder` | src/models/edit.rs:233 | `sort_by` is stable, so of two candidates with the same start byte the earlier one is selected |
| `Edits.EditForSpec` | src/models/edit.rs:227-254 | `get_edit` returns nothing exactly when no candidate is below the bound; otherwise it returns an edit of the best candidate that carries `rule.name()` and the rule's template instantiated with that candidate's captures |
| `Edits.GetEdit` | src/models/edit.rs:227-254 | the sort, the pick, `instantiate` and `Edit::new` together compute `EditFor` |
| `Edits.RulePriorityPass` | src/models/edit.rs:136-142 | the first loop nest computes the rule-major search over non-recursive, unbounded attempts |
| `Edits.DistancePriorityPass` | src/models/edit.rs:145-151 | the second loop nest computes the ancestor-major search over the same attempts |
| `Edits.GetEditForAncestors` | src/models/edit.rs:113-154 | the result is the escalation of the PARENT and PARENT_ITERATIVE rules over the context of the node spanning the previous edit's range |

## Left out

- Template.Instantiate: requires every substitute of a tag that has an indentation entry to contain no `@` and no `:`. This gives the `while let Some(pos) = output.find(key)` loop a decreasing measure. The source loops forever when a re-indented substitute re-creates its own marker. Substitutes with these characters that would still terminate are not covered. `Edits.GetEdit`, `Edits.GetEditForAncestors` and their passes inherit the restriction through the `Candidate` type of query results.
- Substitution order: the source iterates a hash map, whose order is unspecified. The model takes the order of the given sequence, so results that depend on the order between tags are those of that one order.
- Positions are character indices, not byte indices. They agree on ASCII text, and UTF-8 encoding is not modelled.
- The query engine (`get_matches`), `get_node_for_range`, `get_context` and tree-sitter nodes are outside this file. They are function parameters over an opaque node type. `rule_store` is not modelled.
- `get_context` is called again for each PARENT rule, as in the source. It is a pure function of an immutable snapshot, so every call yields the same ancestors.
- `Match::expand_to_associated_matches` is defined outside this file. It is the parameter `expand`, and nothing is assumed about it, not even that it only grows the range.
- A `Match` keeps only the fields this file reads: matched text, range, captures and indentations. A `Range` keeps only its start and end bytes. A rule keeps only `name()` and `replace()`. The `Debug` text of a range is the parameter `showRange`.
- A missing PARENT or PARENT_ITERATIVE bucket makes the source panic on `next_rules[...]`. The model requires both buckets instead. Their string keys are defined outside this file, so they appear as the two constructors of `Bucket`.
- The two loop nests of `get_edit_for_ancestors` are separate methods. The second one runs only when the first returns nothing, which matches the early return of the source.
- `Edit::delete_range` is test-only and is not modelled.
- The Python bindings (`__repr__`, `__str__`), serde derives, terminal colours and italics, and `debug!` and `trace!` logging are not modelled.
- `idea.py` is a sketch of a rule, not executable logic, and is not modelled.
