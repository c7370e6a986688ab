/**
 * Template instantiation: a rule's replacement template becomes concrete
 * text by substituting every captured tag for its two marker spellings,
 * `@tag` and `:[tag]`. A tag with an indentation entry is substituted one
 * occurrence at a time, with its lines re-indented to the column of the
 * marker; any other tag is substituted by a plain `str::replace`.
 *
 * The substitution map of the source is a hash map; here it is a sequence of
 * (tag, substitute) pairs, taken in sequence order.
 */
module Template {
  import opened Optional
  import opened Text

  /** The tree-sitter spelling of a tag marker, `@tag`. */
  function AtMarker(tag: string): string {
    "@" + tag
  }

  /** The bracketed spelling of a tag marker, `:[tag]`. */
  function ColonMarker(tag: string): string {
    ":[" + tag + "]"
  }

  /** `line` without `prefix` when it starts with it, else `line` itself. */
  function StripPrefix(line: string, prefix: string): string {
    if prefix <= line then line[|prefix|..] else line
  }

  /**
   * The lines of `text` with `remove` stripped from each line that starts with
   * it: the line count is kept, a stripped line is `remove` followed by its
   * result, and every other line is left as it was.
   */
  function NormalizedLines(text: string, remove: string): (r: seq<string>)
    ensures |r| == |Lines(text)|
    ensures forall i :: 0 <= i < |r| ==>
      if remove <= Lines(text)[i] then Lines(text)[i] == remove + r[i] else r[i] == Lines(text)[i]
  {
    var lines := Lines(text);
    seq(|lines|, i requires 0 <= i < |lines| => StripPrefix(lines[i], remove))
  }

  /** The `normalize_indentation` helper: normalised lines joined by `'\n'`. */
  function NormalizeIndentation(text: string, remove: string): string {
    Join(NormalizedLines(text, remove))
  }

  /** The first line as it is, every later line preceded by `indent`. */
  function IndentedLines(lines: seq<string>, indent: string): (r: seq<string>)
    ensures |r| == |lines|
    ensures lines != [] ==> r[0] == lines[0]
    ensures forall i :: 1 <= i < |lines| ==> r[i] == indent + lines[i]
  {
    seq(|lines|, i requires 0 <= i < |lines| => if i == 0 then lines[0] else indent + lines[i])
  }

  /** The text `apply_indentation` produces. */
  function Reindented(text: string, indent: string): string {
    Join(IndentedLines(Lines(text), indent))
  }

  /** The `apply_indentation` helper, rewriting its vector of lines in place. */
  method ApplyIndentation(text: string, indent: string) returns (r: string)
    ensures r == Reindented(text, indent)
  {
    var lines := Lines(text);
    ghost var original := lines;
    if |lines| > 1 {
      var i := 1;
      while i < |lines|
        invariant 1 <= i <= |lines| == |original|
        invariant lines[0] == original[0]
        invariant forall j :: 1 <= j < i ==> lines[j] == indent + original[j]
        invariant forall j :: i <= j < |lines| ==> lines[j] == original[j]
      {
        lines := lines[i := indent + lines[i]];
        i := i + 1;
      }
    }
    assert lines == IndentedLines(original, indent);
    r := Join(lines);
  }

  /**
   * Normalising with a prefix that starts no line gives the text back, when
   * the text has no `'\r'` and does not end in a line break.
   */
  lemma NormalizeWithoutPrefixUnchanged(text: string, remove: string)
    requires '\r' !in text && (text == [] || text[|text| - 1] != '\n')
    requires forall i :: 0 <= i < |Lines(text)| ==> !(remove <= Lines(text)[i])
    ensures NormalizeIndentation(text, remove) == text
  {
    assert NormalizedLines(text, remove) == Lines(text);
    JoinLinesRoundTrip(text);
  }

  /**
   * Re-indenting by the empty indentation gives the text back, when the text
   * has no `'\r'` and does not end in a line break.
   */
  lemma ReindentByNothingUnchanged(text: string)
    requires '\r' !in text && (text == [] || text[|text| - 1] != '\n')
    ensures Reindented(text, "") == text
  {
    var lines := Lines(text);
    assert forall i :: 1 <= i < |lines| ==> "" + lines[i] == lines[i];
    assert IndentedLines(lines, "") == lines;
    JoinLinesRoundTrip(text);
  }

  /** Where the line holding position `pos` starts: just after the last `'\n'` before `pos`. */
  function LineStart(out: string, pos: nat): (r: nat)
    requires pos <= |out|
    ensures r <= pos && '\n' !in out[r..pos]
    ensures r == 0 || out[r - 1] == '\n'
  {
    match LastIndexOf(out[..pos], '\n')
    case None => 0
    case Some(p) => assert out[p + 1..pos] == out[..pos][p + 1..]; p + 1
  }

  /**
   * The destination indentation of a marker at `pos`: the run of whitespace
   * that begins the marker's line, stopping at the first other character or
   * at the marker itself.
   */
  function DestinationIndent(out: string, pos: nat): (r: string)
    requires pos <= |out|
    ensures r <= out[LineStart(out, pos)..pos] && IsBlankText(r)
    ensures LineStart(out, pos) + |r| < pos ==> !IsWhitespace(out[LineStart(out, pos) + |r|])
  {
    LeadingWhitespace(out[LineStart(out, pos)..pos])
  }

  /**
   * What makes the occurrence-by-occurrence loop terminate: the marker starts
   * with a character that neither the substitute nor any indentation can
   * contain, so each splice removes one copy of it.
   */
  predicate Splicable(key: string, sub: string) {
    key != [] && key[0] != '\n' && !IsWhitespace(key[0]) && key[0] !in sub
  }

  /** One iteration of the loop: the occurrence at `pos` becomes the re-indented substitute. */
  function SpliceAt(out: string, key: string, sub: string, pos: nat): string
    requires OccursAt(out, key, pos)
  {
    out[..pos] + Reindented(sub, DestinationIndent(out, pos)) + out[pos + |key|..]
  }

  /**
   * The whole `while let Some(pos) = output.find(key)` loop: splice the first
   * occurrence, search again from the start, until the marker is gone.
   */
  function SpliceAll(out: string, key: string, sub: string): (r: string)
    requires Splicable(key, sub)
    ensures Find(r, key).None?
    decreases multiset(out)[key[0]]
  {
    match Find(out, key)
    case None => out
    case Some(p) =>
      SpliceDecreases(out, key, sub, p);
      SpliceAll(SpliceAt(out, key, sub, p), key, sub)
  }

  /** One turn of the loop: splicing the first occurrence leaves the final result unchanged. */
  lemma SpliceAllStep(out: string, key: string, sub: string, pos: nat)
    requires Splicable(key, sub) && Find(out, key) == Some(pos)
    ensures SpliceAll(out, key, sub) == SpliceAll(SpliceAt(out, key, sub, pos), key, sub)
    ensures multiset(SpliceAt(out, key, sub, pos))[key[0]] < multiset(out)[key[0]]
  {
    SpliceDecreases(out, key, sub, pos);
  }

  /**
   * Each splice keeps the text before the occurrence, puts there the
   * substitute's first line unchanged and each later line behind the
   * whitespace run that begins the marker's line, and keeps the text after
   * the occurrence.
   */
  lemma SpliceAtShape(out: string, key: string, sub: string, pos: nat)
    requires OccursAt(out, key, pos)
    ensures
      var indent := DestinationIndent(out, pos);
      var lines := IndentedLines(Lines(sub), indent);
      var r := SpliceAt(out, key, sub, pos);
      && r[..pos] == out[..pos]
      && r[pos..pos + |Join(lines)|] == Join(lines)
      && r[pos + |Join(lines)|..] == out[pos + |key|..]
      && (Lines(sub) != [] ==> lines[0] == Lines(sub)[0])
      && (forall i :: 1 <= i < |lines| ==> lines[i] == indent + Lines(sub)[i])
  {
  }

  lemma ReindentedAvoids(text: string, indent: string, c: char)
    requires c !in text && c != '\n' && !IsWhitespace(c) && IsBlankText(indent)
    ensures c !in Reindented(text, indent)
  {
    LinesAvoid(text, c);
    var lines := IndentedLines(Lines(text), indent);
    assert c !in indent by {
      assert forall k :: 0 <= k < |indent| ==> indent[k] != c;
    }
    forall i | 0 <= i < |lines|
      ensures c !in lines[i]
    {
      if i > 0 {
        assert lines[i] == indent + Lines(text)[i];
      }
    }
    JoinAvoid(lines, c);
  }

  lemma NormalizeAvoids(text: string, remove: string, c: char)
    requires c !in text && c != '\n'
    ensures c !in NormalizeIndentation(text, remove)
  {
    LinesAvoid(text, c);
    var lines := NormalizedLines(text, remove);
    forall i | 0 <= i < |lines|
      ensures c !in lines[i]
    {
      var line := Lines(text)[i];
      if remove <= line {
        assert line == remove + lines[i];
      }
    }
    JoinAvoid(lines, c);
  }

  /** A splice removes one copy of the marker's first character and adds none. */
  lemma SpliceDecreases(out: string, key: string, sub: string, pos: nat)
    requires Splicable(key, sub) && OccursAt(out, key, pos)
    ensures multiset(SpliceAt(out, key, sub, pos))[key[0]] < multiset(out)[key[0]]
  {
    var indent := DestinationIndent(out, pos);
    var middle := Reindented(sub, indent);
    ReindentedAvoids(sub, indent, key[0]);
    var before, after := out[..pos], out[pos + |key|..];
    assert out == before + key + after;
    CountDrops(before, key, middle, after);
  }

  /** Putting `middle` in place of `key` removes a copy of `key[0]` when `middle` has none. */
  lemma CountDrops(before: string, key: string, middle: string, after: string)
    requires key != [] && key[0] !in middle
    ensures multiset(before + middle + after)[key[0]] < multiset(before + key + after)[key[0]]
  {
    var c := key[0];
    assert multiset(middle)[c] == 0;
    assert multiset(key)[c] >= 1 by {
      assert key == [c] + key[1..];
    }
  }

  /** Every substitute of a tag with an indentation entry avoids both marker initials. */
  predicate Terminating(substitutions: seq<(string, string)>, indentations: map<string, string>) {
    forall pair :: pair in substitutions && pair.0 in indentations ==> '@' !in pair.1 && ':' !in pair.1
  }

  /** The body of the loop over substitutions, for one (tag, substitute) pair. */
  function ApplySubstitution(out: string, tag: string, sub: string, indentations: map<string, string>): string
    requires tag in indentations ==> '@' !in sub && ':' !in sub
  {
    if tag in indentations then
      var normalized := NormalizeIndentation(sub, indentations[tag]);
      NormalizeAvoids(sub, indentations[tag], '@');
      NormalizeAvoids(sub, indentations[tag], ':');
      SpliceAll(SpliceAll(out, AtMarker(tag), normalized), ColonMarker(tag), normalized)
    else
      ReplaceAll(ReplaceAll(out, AtMarker(tag), sub), ColonMarker(tag), sub)
  }

  /** The text `instantiate` returns, the pairs being processed in sequence order. */
  function Instantiated(template: string, substitutions: seq<(string, string)>, indentations: map<string, string>): string
    requires Terminating(substitutions, indentations)
    decreases |substitutions|
  {
    if substitutions == [] then template
    else
      var (tag, sub) := substitutions[0];
      assert substitutions[0] in substitutions;
      Instantiated(ApplySubstitution(template, tag, sub, indentations), substitutions[1..], indentations)
  }

  /** The marker-by-marker loop of `instantiate` for a tag with an indentation entry. */
  method ReplaceMarker(text: string, key: string, normalized: string) returns (output: string)
    requires Splicable(key, normalized)
    ensures output == SpliceAll(text, key, normalized)
  {
    output := text;
    var found := Find(output, key);
    while found.Some?
      invariant found == Find(output, key)
      invariant SpliceAll(output, key, normalized) == SpliceAll(text, key, normalized)
      decreases multiset(output)[key[0]]
    {
      var pos := found.value;
      SpliceAllStep(output, key, normalized, pos);
      output := SpliceFirst(output, key, normalized, pos);
      found := Find(output, key);
    }
  }

  /** The body of the `while let` loop: re-indent the substitute for the marker at `pos` and splice it in. */
  method SpliceFirst(output: string, key: string, normalized: string, pos: nat) returns (r: string)
    requires OccursAt(output, key, pos)
    ensures r == SpliceAt(output, key, normalized, pos)
  {
    var lineStart := LineStart(output, pos);
    var tagIndent := LeadingWhitespace(output[lineStart..pos]);
    var indented := ApplyIndentation(normalized, tagIndent);
    r := output[..pos] + indented + output[pos + |key|..];
  }

  /** `SourceCodeUnit::instantiate`. */
  method Instantiate(template: string, substitutions: seq<(string, string)>, indentations: map<string, string>)
    returns (output: string)
    requires Terminating(substitutions, indentations)
    ensures output == Instantiated(template, substitutions, indentations)
    ensures substitutions == [] ==> output == template
  {
    output := template;
    for i := 0 to |substitutions|
      invariant Instantiated(output, substitutions[i..], indentations) == Instantiated(template, substitutions, indentations)
    {
      var (tag, substitute) := substitutions[i];
      assert substitutions[i] in substitutions;
      assert substitutions[i..][1..] == substitutions[i + 1..];
      var keyAt, keyColon := AtMarker(tag), ColonMarker(tag);
      if tag in indentations {
        var normalized := NormalizeIndentation(substitute, indentations[tag]);
        NormalizeAvoids(substitute, indentations[tag], '@');
        NormalizeAvoids(substitute, indentations[tag], ':');
        output := ReplaceMarker(output, keyAt, normalized);
        output := ReplaceMarker(output, keyColon, normalized);
      } else {
        output := ReplaceAll(output, keyAt, substitute);
        output := ReplaceAll(output, keyColon, substitute);
      }
    }
  }

  /** Wherever a marker occurs, its leading part occurs too. */
  lemma OccursPrefix(text: string, key: string, lead: string, q: nat)
    requires lead <= key
    ensures OccursAt(text, key, q) ==> OccursAt(text, lead, q)
  {
    if OccursAt(text, key, q) {
      assert text[q..q + |lead|] == text[q..q + |key|][..|lead|];
    }
  }

  /** A one-character key occurs only where its character is. */
  lemma OccursSingle(text: string, c: char, q: nat)
    ensures OccursAt(text, [c], q) ==> c in text
  {
    if OccursAt(text, [c], q) {
      assert text[q] == text[q..q + 1][0];
    }
  }

  /** A tag whose two markers do not occur leaves the text unchanged. */
  lemma UnmarkedUnchanged(out: string, tag: string, sub: string, indentations: map<string, string>)
    requires tag in indentations ==> '@' !in sub && ':' !in sub
    requires Find(out, AtMarker(tag)).None? && Find(out, ColonMarker(tag)).None?
    ensures ApplySubstitution(out, tag, sub, indentations) == out
  {
  }

  /** A template with no `@` and no `:[` comes back unchanged, whatever the substitutions. */
  lemma {:induction false} NoMarkersUnchanged(template: string, substitutions: seq<(string, string)>, indentations: map<string, string>)
    requires Terminating(substitutions, indentations)
    requires '@' !in template
    requires forall q: nat :: !OccursAt(template, ":[", q)
    ensures Instantiated(template, substitutions, indentations) == template
    decreases |substitutions|
  {
    if substitutions != [] {
      var (tag, sub) := substitutions[0];
      assert substitutions[0] in substitutions;
      forall q: nat
        ensures !OccursAt(template, AtMarker(tag), q) && !OccursAt(template, ColonMarker(tag), q)
      {
        OccursPrefix(template, AtMarker(tag), "@", q);
        OccursPrefix(template, ColonMarker(tag), ":[", q);
        OccursSingle(template, '@', q);
      }
      UnmarkedUnchanged(template, tag, sub, indentations);
      NoMarkersUnchanged(template, substitutions[1..], indentations);
    }
  }
}
