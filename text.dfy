/** The optional value used for every "maybe absent" result of the model. */
module Optional {
  datatype Option<+T> = None | Some(value: T)
}

/**
 * The few operations of Rust's `str` that the edit logic relies on, modelled
 * on `seq<char>`: `find`, `rfind`, `lines`, `join("\n")`, `replace`,
 * `trim` and `char::is_whitespace`. Indices are character positions; on
 * ASCII text they coincide with Rust's byte positions.
 */
module Text {
  import opened Optional

  /** `char::is_whitespace`: the Unicode White_Space property. */
  predicate IsWhitespace(c: char) {
    || c == ' '
    || ('\t' <= c <= '\r')
    || c == '\U{85}' || c == '\U{A0}' || c == '\U{1680}'
    || ('\U{2000}' <= c <= '\U{200A}')
    || c == '\U{2028}' || c == '\U{2029}' || c == '\U{202F}' || c == '\U{205F}' || c == '\U{3000}'
  }

  /** True when every character of `s` is whitespace. */
  predicate IsBlankText(s: string) {
    forall i :: 0 <= i < |s| ==> IsWhitespace(s[i])
  }

  /** `s.chars().take_while(|c| c.is_whitespace())`: the longest whitespace prefix. */
  function LeadingWhitespace(s: string): (r: string)
    ensures r <= s && IsBlankText(r)
    ensures |r| < |s| ==> !IsWhitespace(s[|r|])
    decreases |s|
  {
    if s != [] && IsWhitespace(s[0]) then [s[0]] + LeadingWhitespace(s[1..]) else []
  }

  /** `str::trim_start`. */
  function TrimStart(s: string): string {
    s[|LeadingWhitespace(s)|..]
  }

  /** `str::trim_end`: the longest prefix that does not end in whitespace. */
  function TrimEnd(s: string): (r: string)
    ensures r <= s
    ensures r != [] ==> !IsWhitespace(r[|r| - 1])
    ensures IsBlankText(s[|r|..])
    decreases |s|
  {
    if s != [] && IsWhitespace(s[|s| - 1]) then TrimEnd(s[..|s| - 1]) else s
  }

  /** `str::trim`. */
  function Trim(s: string): string {
    TrimEnd(TrimStart(s))
  }

  /** `s.trim().is_empty()` holds exactly when every character of `s` is whitespace. */
  lemma TrimEmptyIffBlank(s: string)
    ensures Trim(s) == [] <==> IsBlankText(s)
  {
    var lead := LeadingWhitespace(s);
    if IsBlankText(s) {
      assert |lead| == |s|;
    } else {
      var t := TrimStart(s);
      assert |lead| < |s|;
      assert t != [] && !IsWhitespace(t[0]);
      assert t[|TrimEnd(t)|..] != t;
    }
  }

  /** `key` occurs in `s` at position `i`. */
  predicate OccursAt(s: string, key: string, i: nat) {
    i + |key| <= |s| && s[i..i + |key|] == key
  }

  lemma OccursAtTail(s: string, key: string, q: nat)
    requires s != []
    ensures OccursAt(s[1..], key, q) <==> OccursAt(s, key, q + 1)
  {
    if q + 1 + |key| <= |s| {
      assert s[1..][q..q + |key|] == s[q + 1..q + 1 + |key|];
    }
  }

  /** `str::find`: the position of the first occurrence of `key`, if any. */
  function Find(s: string, key: string): (r: Option<nat>)
    ensures r.Some? ==> OccursAt(s, key, r.value)
    ensures r.Some? ==> forall q: nat :: q < r.value ==> !OccursAt(s, key, q)
    ensures r.None? ==> forall q: nat :: !OccursAt(s, key, q)
    decreases |s|
  {
    if |s| < |key| then None
    else if s[..|key|] == key then Some(0)
    else
      var rest := Find(s[1..], key);
      FindTailShift(s, key, rest);
      match rest
      case None => None
      case Some(p) => Some(p + 1)
  }

  lemma FindTailShift(s: string, key: string, rest: Option<nat>)
    requires |key| <= |s| && s[..|key|] != key
    requires rest.Some? ==> OccursAt(s[1..], key, rest.value)
    requires rest.Some? ==> forall q: nat :: q < rest.value ==> !OccursAt(s[1..], key, q)
    requires rest.None? ==> forall q: nat :: !OccursAt(s[1..], key, q)
    ensures rest.Some? ==> OccursAt(s, key, rest.value + 1)
    ensures rest.Some? ==> forall q: nat :: q < rest.value + 1 ==> !OccursAt(s, key, q)
    ensures rest.None? ==> forall q: nat :: !OccursAt(s, key, q)
  {
    assert !OccursAt(s, key, 0);
    forall q: nat | true
      ensures OccursAt(s[1..], key, q) <==> OccursAt(s, key, q + 1)
    {
      OccursAtTail(s, key, q);
    }
    forall q: nat | q > 0
      ensures OccursAt(s, key, q) <==> OccursAt(s[1..], key, q - 1)
    {
      OccursAtTail(s, key, q - 1);
    }
  }

  /** The first position of character `c` in `s`, if any. */
  function IndexOf(s: string, c: char): (r: Option<nat>)
    ensures r.Some? ==> r.value < |s| && s[r.value] == c && c !in s[..r.value]
    ensures r.None? ==> c !in s
    decreases |s|
  {
    if s == [] then None
    else if s[0] == c then Some(0)
    else match IndexOf(s[1..], c)
      case None => None
      case Some(p) => assert s[..p + 1] == [s[0]] + s[1..][..p]; Some(p + 1)
  }

  /** `str::rfind` of a character: the position of its last occurrence, if any. */
  function LastIndexOf(s: string, c: char): (r: Option<nat>)
    ensures r.Some? ==> r.value < |s| && s[r.value] == c && c !in s[r.value + 1..]
    ensures r.None? ==> c !in s
    decreases |s|
  {
    if s == [] then None
    else if s[|s| - 1] == c then Some(|s| - 1)
    else
      var r := LastIndexOf(s[..|s| - 1], c);
      assert s == s[..|s| - 1] + [s[|s| - 1]];
      assert r.Some? ==> s[r.value + 1..] == s[..|s| - 1][r.value + 1..] + [s[|s| - 1]];
      r
  }

  /**
   * `str::replace`: one left-to-right scan that replaces every non-overlapping
   * occurrence of `from` by `to`; the inserted text is never scanned again.
   * Characterised through `find`: nothing changes when `from` does not occur;
   * otherwise the text before the first occurrence is kept, the occurrence
   * becomes `to`, and the scan resumes right after it.
   */
  function ReplaceAll(s: string, from: string, to: string): (r: string)
    requires from != []
    ensures Find(s, from).None? ==> r == s
    ensures Find(s, from).Some? ==>
      var p := Find(s, from).value;
      r == s[..p] + to + ReplaceFrom(s, from, to, p + |from|)
  {
    match Find(s, from)
    case None =>
      ReplaceFromAbsent(s, from, to, 0);
      ReplaceFrom(s, from, to, 0)
    case Some(p) =>
      ReplaceFromFirst(s, from, to, 0, p);
      ReplaceFrom(s, from, to, 0)
  }

  /** The output of `replace`'s scan from position `i` of `s` onwards. */
  function ReplaceFrom(s: string, from: string, to: string, i: nat): string
    requires from != [] && i <= |s|
    decreases |s| - i
  {
    if |s| < i + |from| then s[i..]
    else if OccursAt(s, from, i) then to + ReplaceFrom(s, from, to, i + |from|)
    else [s[i]] + ReplaceFrom(s, from, to, i + 1)
  }

  /** A scan that meets no occurrence copies the rest of the text. */
  lemma {:induction false} ReplaceFromAbsent(s: string, from: string, to: string, i: nat)
    requires from != [] && i <= |s|
    requires forall q: nat :: !OccursAt(s, from, q)
    ensures ReplaceFrom(s, from, to, i) == s[i..]
    decreases |s| - i
  {
    if i + |from| <= |s| {
      assert !OccursAt(s, from, i);
      ReplaceFromAbsent(s, from, to, i + 1);
      assert s[i..] == [s[i]] + s[i + 1..];
    }
  }

  /** A scan from `i` copies up to the first occurrence `p` and puts `to` there. */
  lemma {:induction false} ReplaceFromFirst(s: string, from: string, to: string, i: nat, p: nat)
    requires from != [] && i <= p && OccursAt(s, from, p)
    requires forall q: nat :: i <= q < p ==> !OccursAt(s, from, q)
    ensures ReplaceFrom(s, from, to, i) == s[i..p] + to + ReplaceFrom(s, from, to, p + |from|)
    decreases p - i
  {
    if i == p {
      assert s[i..p] == [];
    } else {
      ReplaceFromFirst(s, from, to, i + 1, p);
      ReplaceFromSkip(s, from, to, i, p);
    }
  }

  /** The inductive step of `ReplaceFromFirst`: the scan copies `s[i]` and moves on. */
  lemma ReplaceFromSkip(s: string, from: string, to: string, i: nat, p: nat)
    requires from != [] && i < p && p + |from| <= |s| && !OccursAt(s, from, i)
    requires ReplaceFrom(s, from, to, i + 1) == s[i + 1..p] + to + ReplaceFrom(s, from, to, p + |from|)
    ensures ReplaceFrom(s, from, to, i) == s[i..p] + to + ReplaceFrom(s, from, to, p + |from|)
  {
    var after := ReplaceFrom(s, from, to, p + |from|);
    calc {
      ReplaceFrom(s, from, to, i);
      [s[i]] + ReplaceFrom(s, from, to, i + 1);
      [s[i]] + (s[i + 1..p] + to + after);
      ([s[i]] + s[i + 1..p]) + to + after;
      { assert [s[i]] + s[i + 1..p] == s[i..p]; }
      s[i..p] + to + after;
    }
  }

  /** Because `replace` never rescans its output, an occurrence can survive it. */
  lemma ReplaceIsSinglePass()
    ensures ReplaceAll("aab", "ab", "b") == "ab"
  {
    assert "aab"[..2][1] != "ab"[1];
    assert "aab"[1..] == "ab";
    assert "ab"[2..] == [];
  }

  /** Drops one `'\r'` that ends a line terminated by `'\n'`. */
  function StripCarriageReturn(line: string): string {
    if line != [] && line[|line| - 1] == '\r' then line[..|line| - 1] else line
  }

  /**
   * `str::lines`: split at every `'\n'`, drop a `'\r'` just before it, and
   * yield no final empty line after a trailing line break (`""` has no lines).
   */
  function Lines(s: string): (r: seq<string>)
    ensures s != [] <==> r != []
    decreases |s|
  {
    if s == [] then []
    else match IndexOf(s, '\n')
      case None => [s]
      case Some(i) => [StripCarriageReturn(s[..i])] + Lines(s[i + 1..])
  }

  /** `join("\n")`. */
  function Join(lines: seq<string>): string {
    if lines == [] then []
    else if |lines| == 1 then lines[0]
    else lines[0] + "\n" + Join(lines[1..])
  }

  /** A line of `Lines(s)` holds no character that `s` lacks, and never a line break. */
  lemma {:induction false} LinesAvoid(s: string, c: char)
    requires c !in s
    ensures forall i :: 0 <= i < |Lines(s)| ==> c !in Lines(s)[i] && '\n' !in Lines(s)[i]
    decreases |s|
  {
    if s != [] {
      match IndexOf(s, '\n')
      case None =>
      case Some(i) =>
        LinesAvoid(s[i + 1..], c);
        assert c !in s[..i];
    }
  }

  /** Joining lines that lack `c` gives a text lacking `c`, unless `c` is the separator. */
  lemma {:induction false} JoinAvoid(lines: seq<string>, c: char)
    requires c != '\n'
    requires forall i :: 0 <= i < |lines| ==> c !in lines[i]
    ensures c !in Join(lines)
    decreases |lines|
  {
    if |lines| > 1 {
      JoinAvoid(lines[1..], c);
    }
  }

  /**
   * Splitting into lines and joining them again gives back a text that has no
   * `'\r'` and does not end in a line break.
   */
  lemma {:induction false} JoinLinesRoundTrip(s: string)
    requires '\r' !in s
    requires s == [] || s[|s| - 1] != '\n'
    ensures Join(Lines(s)) == s
    decreases |s|
  {
    if s != [] {
      match IndexOf(s, '\n')
      case None =>
      case Some(i) =>
        var rest := s[i + 1..];
        assert i < |s| - 1;
        assert '\r' !in s[..i];
        JoinLinesRoundTrip(rest);
        var ls := Lines(s);
        assert ls == [s[..i]] + Lines(rest);
        assert ls[1..] == Lines(rest);
        assert s == s[..i] + "\n" + rest;
    }
  }

  /** A trailing line break is lost by `lines`: `"a\n"` has the single line `"a"`. */
  lemma TrailingNewlineDropped()
    ensures Lines("a\n") == ["a"]
    ensures Join(Lines("a\n")) == "a"
  {
    assert "a\n"[1..] == "\n";
    assert IndexOf("\n", '\n') == Some(0);
    assert IndexOf("a\n", '\n') == Some(1);
    assert "a\n"[..1] == "a";
    assert "a\n"[2..] == [];
  }
}
