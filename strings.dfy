/**
 * The parts of Python's `str` semantics that the LDIF core calls:
 * `split` with an explicit separator, `replace`, `rstrip` and
 * `split(sep, 1)`. Substring search (`Find`, `IndexOf`) and `Join` are
 * helpers of this model that specify those four.
 */
module Strings {
  import opened Wrappers

  /** `pat` occurs in `s` starting at index `i`. */
  predicate OccursAt(s: string, pat: string, i: int) {
    0 <= i && i + |pat| <= |s| && s[i..i + |pat|] == pat
  }

  /** Python's `pat in s`. */
  predicate Contains(s: string, pat: string) {
    exists i | 0 <= i <= |s| :: OccursAt(s, pat, i)
  }

  /** `k` is the leftmost index at which `pat` occurs in `s`. */
  predicate FirstOccurrence(s: string, pat: string, k: int) {
    OccursAt(s, pat, k) && forall j :: 0 <= j < k ==> !OccursAt(s, pat, j)
  }

  /** Python's `s.find(pat, start)`, with `None` for -1. */
  function Find(s: string, pat: string, start: nat): (r: Option<nat>)
    decreases |s| - start
    ensures r.Some? ==> start <= r.value && OccursAt(s, pat, r.value)
    ensures r.Some? ==> forall j :: start <= j < r.value ==> !OccursAt(s, pat, j)
    ensures r.None? ==> forall j :: start <= j ==> !OccursAt(s, pat, j)
  {
    if start + |pat| > |s| then None
    else if s[start..start + |pat|] == pat then Some(start)
    else Find(s, pat, start + 1)
  }

  /** Python's `s.find(pat)`: the leftmost occurrence, if any. */
  function IndexOf(s: string, pat: string): (r: Option<nat>)
    ensures r.None? <==> !Contains(s, pat)
    ensures r.Some? ==> FirstOccurrence(s, pat, r.value)
  {
    Find(s, pat, 0)
  }

  /** An occurrence of `pat` inside a prefix of `s` is an occurrence in `s`. */
  lemma OccursInPrefix(s: string, pat: string, k: nat, j: int)
    requires k <= |s| && OccursAt(s[..k], pat, j)
    ensures OccursAt(s, pat, j)
  {
    assert s[..k][j..j + |pat|] == s[j..j + |pat|];
  }

  /** An occurrence of a non-empty pattern starts with the pattern's first character. */
  lemma OccursAtHead(s: string, pat: string, i: int)
    ensures OccursAt(s, pat, i) && pat != [] ==> s[i] == pat[0]
  {
    if OccursAt(s, pat, i) && pat != [] {
      assert s[i..i + |pat|][0] == pat[0];
    }
  }

  /** An occurrence in `s[1..]` is an occurrence in `s`, one index further on, and conversely. */
  lemma OccursInTail(s: string, pat: string, j: int)
    requires s != [] && 0 <= j
    ensures OccursAt(s[1..], pat, j) <==> OccursAt(s, pat, j + 1)
  {
    if 0 <= j && j + |pat| <= |s| - 1 {
      assert s[1..][j..j + |pat|] == s[j + 1..j + 1 + |pat|];
    }
  }

  /** Python's `sep.join(parts)`. */
  function Join(parts: seq<string>, sep: string): string {
    if |parts| == 0 then ""
    else if |parts| == 1 then parts[0]
    else parts[0] + sep + Join(parts[1..], sep)
  }

  /**
   * Python's `s.split(sep)` for a non-empty `sep` (an empty one raises
   * ValueError in Python).  The pieces lie between the leftmost
   * non-overlapping occurrences of `sep`: there is always at least one,
   * none contains `sep`, each piece but the last is followed by the
   * leftmost occurrence after it, and joining them with `sep` gives `s` back.
   */
  function Split(s: string, sep: string): (r: seq<string>)
    requires sep != []
    decreases |s|
    ensures |r| >= 1
    ensures s == [] ==> r == [""]
    ensures Join(r, sep) == s
    ensures forall i :: 0 <= i < |r| ==> !Contains(r[i], sep)
    ensures forall i :: 0 <= i < |r| - 1 ==> !Contains(r[i] + sep[..|sep| - 1], sep)
  {
    match IndexOf(s, sep)
    case None => [s]
    case Some(k) =>
      SplitAtFirst(s, sep, k);
      var rest := Split(s[k + |sep|..], sep);
      assert ([s[..k]] + rest)[1..] == rest;
      [s[..k]] + rest
  }

  /**
   * Cutting `s` at the leftmost occurrence of `sep`: the text before it
   * holds no `sep`, not even one that would end inside the cut.
   */
  lemma SplitAtFirst(s: string, sep: string, k: nat)
    requires sep != [] && FirstOccurrence(s, sep, k)
    ensures s == s[..k] + sep + s[k + |sep|..]
    ensures !Contains(s[..k], sep)
    ensures !Contains(s[..k] + sep[..|sep| - 1], sep)
  {
    assert s[k..k + |sep|] == sep;
    forall j | 0 <= j ensures !OccursAt(s[..k], sep, j) {
      if OccursAt(s[..k], sep, j) { OccursInPrefix(s, sep, k, j); }
    }
    var head := s[..k] + sep[..|sep| - 1];
    assert head == s[..k + |sep| - 1];
    forall j | 0 <= j ensures !OccursAt(head, sep, j) {
      if OccursAt(head, sep, j) { OccursInPrefix(s, sep, k + |sep| - 1, j); }
    }
  }

  /**
   * The properties in `Split`'s contract determine its result: any list of
   * pieces that joins back to `s`, holds no `sep` and cuts at the leftmost
   * occurrences is `Split(s, sep)`.
   */
  lemma {:induction false} SplitUnique(s: string, sep: string, parts: seq<string>)
    requires sep != [] && |parts| >= 1 && Join(parts, sep) == s
    requires forall i :: 0 <= i < |parts| ==> !Contains(parts[i], sep)
    requires forall i :: 0 <= i < |parts| - 1 ==> !Contains(parts[i] + sep[..|sep| - 1], sep)
    ensures parts == Split(s, sep)
    decreases |parts|
  {
    if |parts| == 1 {
      assert IndexOf(s, sep).None?;
    } else {
      var p := parts[0];
      var rest := parts[1..];
      var tail := Join(rest, sep);
      assert s == p + sep + tail;
      var k := |p|;
      assert s[k..k + |sep|] == sep;
      var head := p + sep[..|sep| - 1];
      assert s[..k + |sep| - 1] == head;
      forall j | 0 <= j < k ensures !OccursAt(s, sep, j) {
        assert !OccursAt(head, sep, j);
        assert s[..k + |sep| - 1][j..j + |sep|] == s[j..j + |sep|];
      }
      assert OccursAt(s, sep, k);
      assert IndexOf(s, sep) == Some(k);
      assert s[k + |sep|..] == tail;
      SplitUnique(tail, sep, rest);
      assert parts == [p] + rest;
    }
  }

  /**
   * Python's `s.replace(pat, rep)` for a non-empty `pat`: one left-to-right
   * pass that replaces each occurrence of `pat` it meets and resumes after it.
   */
  function Replace(s: string, pat: string, rep: string): string
    requires pat != []
    decreases |s|
  {
    if s == [] then ""
    else if OccursAt(s, pat, 0) then rep + Replace(s[|pat|..], pat, rep)
    else [s[0]] + Replace(s[1..], pat, rep)
  }

  /** `Replace` keeps a first character that does not start an occurrence. */
  lemma ReplaceKeep(c: char, t: string, pat: string, rep: string)
    requires pat != [] && !OccursAt([c] + t, pat, 0)
    ensures Replace([c] + t, pat, rep) == [c] + Replace(t, pat, rep)
  {
    assert ([c] + t)[1..] == t;
  }

  /** `Replace` substitutes an occurrence at the front and goes on after it. */
  lemma ReplaceDrop(t: string, pat: string, rep: string)
    requires pat != []
    ensures Replace(pat + t, pat, rep) == rep + Replace(t, pat, rep)
  {
    assert (pat + t)[..|pat|] == pat;
    assert (pat + t)[|pat|..] == t;
  }

  /** Joining after prepending a character to the first part prepends it to the result. */
  lemma {:induction false} JoinPrependFirst(c: char, first: string, rest: seq<string>, sep: string)
    ensures Join([[c] + first] + rest, sep) == [c] + Join([first] + rest, sep)
  {
    if rest != [] {
      assert ([[c] + first] + rest)[1..] == rest;
      assert ([first] + rest)[1..] == rest;
    }
  }

  /**
   * When `sep` does not start `s`, its leftmost occurrence in `s[1..]` is
   * one position earlier than in `s`.
   */
  lemma IndexOfTail(s: string, sep: string)
    requires s != [] && !OccursAt(s, sep, 0)
    ensures IndexOf(s, sep).None? ==> IndexOf(s[1..], sep).None?
    ensures IndexOf(s, sep).Some? ==>
      IndexOf(s, sep).value >= 1 && IndexOf(s[1..], sep) == Some(IndexOf(s, sep).value - 1)
  {
    var t := s[1..];
    forall j | 0 <= j ensures OccursAt(t, sep, j) <==> OccursAt(s, sep, j + 1) {
      OccursInTail(s, sep, j);
    }
    if IndexOf(s, sep).Some? {
      var k := IndexOf(s, sep).value;
      assert OccursAt(t, sep, k - 1);
      assert forall j :: 0 <= j < k - 1 ==> !OccursAt(t, sep, j);
    }
  }

  /**
   * When `sep` does not start `s`, splitting `s` is splitting `s[1..]` with
   * the first character put back on the front of the first piece.
   */
  lemma SplitStep(s: string, sep: string)
    requires sep != [] && s != [] && !OccursAt(s, sep, 0)
    ensures Split(s, sep) == [[s[0]] + Split(s[1..], sep)[0]] + Split(s[1..], sep)[1..]
  {
    IndexOfTail(s, sep);
    if IndexOf(s, sep).None? {
      assert Split(s[1..], sep) == [s[1..]];
      assert s == [s[0]] + s[1..];
    } else {
      SplitStepAtFirst(s, sep, IndexOf(s, sep).value);
    }
  }

  /** Splitting at the leftmost `sep`, at `k`: the first piece, then the split of the rest. */
  lemma SplitAt(s: string, sep: string, k: nat)
    requires sep != [] && IndexOf(s, sep) == Some(k)
    ensures k + |sep| <= |s| && Split(s, sep) == [s[..k]] + Split(s[k + |sep|..], sep)
  {
  }

  /** `SplitStep` when the leftmost `sep` in `s` starts at `k >= 1`. */
  lemma SplitStepAtFirst(s: string, sep: string, k: nat)
    requires sep != [] && 1 <= k && IndexOf(s, sep) == Some(k) && IndexOf(s[1..], sep) == Some(k - 1)
    ensures Split(s, sep) == [[s[0]] + Split(s[1..], sep)[0]] + Split(s[1..], sep)[1..]
  {
    var t := s[1..];
    SplitAt(s, sep, k);
    SplitAt(t, sep, k - 1);
    TailSlices(s, k, k + |sep|);
    SeqConsHead(Split(s, sep), Split(t, sep), s[..k], t[..k - 1], Split(s[k + |sep|..], sep), s[0]);
  }

  /** Slicing `s[1..]` is slicing `s` one index further on. */
  lemma TailSlices(s: string, k: nat, m: nat)
    requires 1 <= k <= m <= |s|
    ensures s[..k] == [s[0]] + s[1..][..k - 1] && s[1..][m - 1..] == s[m..]
  {
  }

  /** Sequence algebra for `SplitStepAtFirst`, kept apart from `Split`'s contract. */
  lemma SeqConsHead(ps: seq<string>, pt: seq<string>, a: string, b: string, rest: seq<string>, c: char)
    requires ps == [a] + rest && pt == [b] + rest && a == [c] + b
    ensures ps == [[c] + pt[0]] + pt[1..]
  {
    assert pt[1..] == rest;
  }

  /**
   * The independent reference for `Replace`: replacing every occurrence of
   * `pat` in one pass is the same as splitting on `pat` and joining with `rep`.
   * So every character outside the replaced occurrences is kept, in order.
   */
  lemma {:induction false} ReplaceIsSplitJoin(s: string, pat: string, rep: string)
    requires pat != []
    ensures Replace(s, pat, rep) == Join(Split(s, pat), rep)
    decreases |s|
  {
    if s == [] {
    } else if OccursAt(s, pat, 0) {
      ReplaceIsSplitJoin(s[|pat|..], pat, rep);
      ReplaceStepAtPattern(s, pat, rep);
    } else {
      ReplaceIsSplitJoin(s[1..], pat, rep);
      ReplaceStepOverChar(s, pat, rep);
    }
  }

  /** The step of `ReplaceIsSplitJoin` where `s` starts with `pat`. */
  lemma ReplaceStepAtPattern(s: string, pat: string, rep: string)
    requires pat != [] && OccursAt(s, pat, 0)
    requires Replace(s[|pat|..], pat, rep) == Join(Split(s[|pat|..], pat), rep)
    ensures Replace(s, pat, rep) == Join(Split(s, pat), rep)
  {
    var rest := Split(s[|pat|..], pat);
    assert IndexOf(s, pat) == Some(0);
    assert s[..0] == "";
    var parts := Split(s, pat);
    assert parts == [""] + rest;
    assert parts[1..] == rest;
  }

  /** The step of `ReplaceIsSplitJoin` where `s` does not start with `pat`. */
  lemma ReplaceStepOverChar(s: string, pat: string, rep: string)
    requires pat != [] && s != [] && !OccursAt(s, pat, 0)
    requires Replace(s[1..], pat, rep) == Join(Split(s[1..], pat), rep)
    ensures Replace(s, pat, rep) == Join(Split(s, pat), rep)
  {
    SplitStep(s, pat);
    var t := Split(s[1..], pat);
    assert t == [t[0]] + t[1..];
    JoinPrependFirst(s[0], t[0], t[1..], rep);
  }

  /** A string without `pat` is left unchanged by `Replace`. */
  lemma ReplaceAbsent(s: string, pat: string, rep: string)
    requires pat != [] && !Contains(s, pat)
    ensures Replace(s, pat, rep) == s
  {
    ReplaceIsSplitJoin(s, pat, rep);
  }

  /** The characters Python's `str.isspace` accepts (the Unicode whitespace set). */
  predicate IsSpace(c: char) {
    var n := c as int;
    (0x09 <= n <= 0x0D) || (0x1C <= n <= 0x20) || n == 0x85 || n == 0xA0 ||
    n == 0x1680 || (0x2000 <= n <= 0x200A) || n == 0x2028 || n == 0x2029 ||
    n == 0x202F || n == 0x205F || n == 0x3000
  }

  /** `s` does not end in whitespace. */
  predicate Trimmed(s: string) {
    s == [] || !IsSpace(s[|s| - 1])
  }

  /**
   * Python's `s.rstrip()`: the longest prefix of `s` that does not end in
   * whitespace, everything after it being whitespace.
   */
  function RStrip(s: string): (r: string)
    ensures r <= s
    ensures Trimmed(r)
    ensures forall i :: |r| <= i < |s| ==> IsSpace(s[i])
  {
    if s != [] && IsSpace(s[|s| - 1]) then RStrip(s[..|s| - 1]) else s
  }

  /** The three properties of `RStrip` determine its result. */
  lemma RStripUnique(s: string, r: string)
    requires r <= s && Trimmed(r)
    requires forall i :: |r| <= i < |s| ==> IsSpace(s[i])
    ensures RStrip(s) == r
  {
  }

  /**
   * Python's `s.split(sep, 1)[0]`: the text before the leftmost `sep`, or
   * all of `s` when `sep` does not occur.
   */
  function BeforeFirst(s: string, sep: string): (r: string)
    requires sep != []
    ensures r <= s
    ensures forall j :: 0 <= j < |r| ==> !OccursAt(s, sep, j)
    ensures Contains(s, sep) ==> FirstOccurrence(s, sep, |r|)
    ensures !Contains(s, sep) ==> r == s
  {
    match IndexOf(s, sep)
    case None => s
    case Some(k) => s[..k]
  }

  /**
   * Python's `s.split(sep, 1)[1]`: the text after the leftmost `sep`, or
   * `None` where Python raises IndexError because there is no second piece.
   */
  function AfterFirst(s: string, sep: string): (r: Option<string>)
    requires sep != []
    ensures r.None? <==> !Contains(s, sep)
    ensures r.Some? ==> s == BeforeFirst(s, sep) + sep + r.value
  {
    match IndexOf(s, sep)
    case None => None
    case Some(k) =>
      assert s == s[..k] + s[k..k + |sep|] + s[k + |sep|..];
      Some(s[k + |sep|..])
  }
}
