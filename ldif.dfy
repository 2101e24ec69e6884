/**
 * The LDIF core of ldif-git-backup: `Ldif` (a whole `slapcat` dump, unfolded
 * and split into entries), `Entry` (one entry's text, its DN and its
 * entryUUID) and `Dit` (the map from entryUUID to DN).  None of the three is
 * changed after it is built, so each is a datatype.
 */
module LdifGitBackup {
  import opened Wrappers
  import opened Strings
  import Dicts

  /** A line break followed by a space: the marker of a folded (wrapped) line. */
  const Fold := "\n "

  /** `Ldif.ENTRY_SEPARATOR`: entries are separated by a blank line. */
  const EntrySeparator := "\n\n"

  /** What precedes an entryUUID value: it must start a line other than the first. */
  const UuidTag := "\nentryUUID: "

  /** What separates an attribute name from its value. */
  const AttrSeparator := ": "

  /** `Ldif`: the text of a dump; `NewLdif` builds the unfolded, right-stripped one. */
  datatype Ldif = Ldif(raw: string)

  /** `Entry`: the raw text of one entry. */
  datatype Entry = Entry(raw: string)

  /** `Dit`: a list of entries. */
  datatype Dit = Dit(entries: seq<Entry>)

  /** The text followed by the blank line that ends every serialised piece. */
  function WithBlankLine(raw: string): string {
    raw + "\n\n"
  }

  /**
   * `Ldif(raw)`: deletes every folding marker in one left-to-right pass,
   * then strips trailing whitespace.  The result keeps every character that
   * is not part of a deleted marker and never ends in whitespace, in
   * particular never in a line break.
   */
  function NewLdif(text: string): (l: Ldif)
    ensures Trimmed(l.raw)
    ensures l.raw == [] || l.raw[|l.raw| - 1] != '\n'
    ensures l.raw <= Replace(text, Fold, "")
    ensures forall i :: |l.raw| <= i < |Replace(text, Fold, "")| ==> IsSpace(Replace(text, Fold, "")[i])
  {
    Ldif(RStrip(Replace(text, Fold, "")))
  }

  /** `str(ldif)`. */
  function LdifStr(l: Ldif): string {
    WithBlankLine(l.raw)
  }

  /** `Ldif.get_raw_entries`: the raw text split on the entry separator. */
  function RawEntries(l: Ldif): seq<string> {
    Split(l.raw, EntrySeparator)
  }

  /**
   * `Ldif.get_entries`: one entry per raw piece, in order.
   */
  method GetEntries(l: Ldif) returns (entries: seq<Entry>)
    ensures |entries| == |RawEntries(l)|
    ensures forall i :: 0 <= i < |entries| ==> entries[i].raw == RawEntries(l)[i]
  {
    var pieces := RawEntries(l);
    entries := [];
    for i := 0 to |pieces|
      invariant |entries| == i
      invariant forall k :: 0 <= k < i ==> entries[k].raw == pieces[k]
    {
      entries := entries + [Entry(pieces[i])];
    }
  }

  /** `str(entry)`. */
  function EntryStr(e: Entry): (r: string)
    ensures r == EntryLdif(e)
  {
    e.raw + "\n\n"
  }

  /** `Entry.ldif()`: the text written to the entry's backup file. */
  function EntryLdif(e: Entry): string {
    WithBlankLine(e.raw)
  }

  /** The first line of `s`: `s.split('\n', 1)[0]`. */
  function FirstLine(s: string): (line: string)
    ensures line <= s && '\n' !in line
    ensures line == s || s[|line|] == '\n'
  {
    var line := BeforeFirst(s, "\n");
    assert '\n' !in line by {
      forall j | 0 <= j < |line| ensures line[j] != '\n' {
        assert !OccursAt(s, "\n", j) && s[j..j + 1] == [line[j]];
      }
    }
    assert line != s ==> s[|line|] == '\n' by {
      if line != s { assert OccursAt(s, "\n", |line|); }
    }
    line
  }

  /**
   * `Entry.dn()`: the part of the first line after its first ": ".  Python
   * raises IndexError when the first line has no ": ".
   */
  function Dn(e: Entry): (r: Result<string>)
    ensures r.Ok? <==> Contains(FirstLine(e.raw), AttrSeparator)
    ensures r.Ok? ==> '\n' !in r.value
    ensures r.Ok? ==> exists k :: FirstOccurrence(FirstLine(e.raw), AttrSeparator, k) &&
                                  FirstLine(e.raw) == FirstLine(e.raw)[..k] + AttrSeparator + r.value
  {
    var line := FirstLine(e.raw);
    match AfterFirst(line, AttrSeparator)
    case None => Err(IndexError)
    case Some(v) =>
      var before := BeforeFirst(line, AttrSeparator);
      assert line[..|before|] == before;
      assert v == line[|before| + 2..];
      Ok(v)
  }

  /**
   * The regular expression `[\n]entryUUID: ([^\n]+)` matches at index `i`
   * with group `v`: a line break, the tag, then `v`, which is non-empty,
   * holds no line break and runs to the next line break or to the end.
   */
  predicate UuidMatch(s: string, i: int, v: string) {
    OccursAt(s, UuidTag + v, i) && v != [] && '\n' !in v &&
    (i + |UuidTag| + |v| == |s| || s[i + |UuidTag| + |v|] == '\n')
  }

  /** The leftmost match of `UuidMatch` at or after `start`, if any. */
  function SearchUuid(s: string, start: nat): (r: Option<string>)
    decreases |s| - start
    ensures r.Some? ==> exists i :: start <= i && UuidMatch(s, i, r.value) &&
                                    forall j, w :: start <= j < i ==> !UuidMatch(s, j, w)
    ensures r.None? ==> forall j, w :: start <= j ==> !UuidMatch(s, j, w)
  {
    if start + |UuidTag| >= |s| then
      None
    else if OccursAt(s, UuidTag, start) && s[start + |UuidTag|] != '\n' then
      UuidMatchOfTag(s, start);
      Some(FirstLine(s[start + |UuidTag|..]))
    else
      assert forall w :: !UuidMatch(s, start, w) by {
        forall w ensures !UuidMatch(s, start, w) {
          UuidMatchNeedsTag(s, start, w);
        }
      }
      SearchUuid(s, start + 1)
  }

  /** A match starts with the tag, followed by something other than a line break. */
  lemma UuidMatchNeedsTag(s: string, i: int, v: string)
    ensures UuidMatch(s, i, v) ==>
              OccursAt(s, UuidTag, i) && i + |UuidTag| < |s| && s[i + |UuidTag|] != '\n'
  {
    if UuidMatch(s, i, v) {
      assert s[i..i + |UuidTag| + |v|] == UuidTag + v;
      assert s[i..i + |UuidTag|] == (UuidTag + v)[..|UuidTag|];
      assert s[i + |UuidTag|] == (UuidTag + v)[|UuidTag|];
    }
  }

  /** A line is determined by where it stops: `FirstLine` is the only prefix without a line break that ends at one or at the end. */
  lemma FirstLineUnique(s: string, v: string)
    requires v <= s && '\n' !in v && (v == s || s[|v|] == '\n')
    ensures v == FirstLine(s)
  {
  }

  /** The regex is greedy: the value it captures is the rest of the line after the tag. */
  lemma UuidMatchIsRestOfLine(s: string, i: int, v: string)
    requires UuidMatch(s, i, v)
    ensures v == FirstLine(s[i + |UuidTag|..])
  {
    var t := s[i + |UuidTag|..];
    assert s[i..i + |UuidTag| + |v|] == UuidTag + v;
    assert t[..|v|] == (UuidTag + v)[|UuidTag|..];
    FirstLineUnique(t, v);
  }

  /** Where the tag is followed by something other than a line break, the regex matches the rest of that line. */
  lemma UuidMatchOfTag(s: string, i: int)
    requires OccursAt(s, UuidTag, i) && i + |UuidTag| < |s| && s[i + |UuidTag|] != '\n'
    ensures UuidMatch(s, i, FirstLine(s[i + |UuidTag|..]))
  {
    var t := s[i + |UuidTag|..];
    var v := FirstLine(t);
    assert s[i..i + |UuidTag| + |v|] == s[i..i + |UuidTag|] + t[..|v|];
  }

  /**
   * `Entry.uuid()`: the value of the leftmost entryUUID line that is not the
   * first line and has a non-empty value, or None when there is none.
   */
  function Uuid(e: Entry): (r: Option<string>)
    ensures r.None? <==> forall i, w :: !UuidMatch(e.raw, i, w)
    ensures r.Some? ==> r.value != [] && '\n' !in r.value
    ensures r.Some? ==> exists i :: UuidMatch(e.raw, i, r.value) &&
                                    forall j, w :: 0 <= j < i ==> !UuidMatch(e.raw, j, w)
  {
    SearchUuid(e.raw, 0)
  }

  /** The key and the value (or exception) each entry contributes: `uuid()` and `dn()`. */
  function UuidDnPairs(entries: seq<Entry>): (pairs: seq<(Option<string>, Result<string>)>)
    ensures |pairs| == |entries|
    ensures forall i :: 0 <= i < |entries| ==> pairs[i] == (Uuid(entries[i]), Dn(entries[i]))
  {
    seq(|entries|, i requires 0 <= i < |entries| => (Uuid(entries[i]), Dn(entries[i])))
  }

  /**
   * The result of `Dit.get_entry_map`: each entry in turn sets the key
   * `uuid()` to `dn()`; the first `dn()` that raises makes the whole call raise.
   */
  function EntryMap(entries: seq<Entry>): Result<map<Option<string>, string>> {
    Dicts.Assign(UuidDnPairs(entries))
  }

  /** `Dit.get_entry_map`. */
  method GetEntryMap(dit: Dit) returns (r: Result<map<Option<string>, string>>)
    ensures r == EntryMap(dit.entries)
  {
    ghost var pairs := UuidDnPairs(dit.entries);
    var entryMap := map[];
    for i := 0 to |dit.entries|
      invariant Dicts.Assign(pairs[..i]) == Ok(entryMap)
    {
      var entry := dit.entries[i];
      var dn := Dn(entry);
      assert pairs[i] == (Uuid(entry), dn);
      Dicts.AssignPrefixStep(pairs, i);
      if dn.Err? {
        Dicts.AssignErrExtends(pairs, i + 1);
        return Err(dn.error);
      }
      entryMap := entryMap[Uuid(entry) := dn.value];
    }
    assert pairs[..|dit.entries|] == pairs;
    r := Ok(entryMap);
  }

  /** `get_entry_map` raises exactly when some entry's `dn()` raises. */
  lemma EntryMapFails(entries: seq<Entry>)
    ensures EntryMap(entries).Err? <==> exists i :: 0 <= i < |entries| && Dn(entries[i]).Err?
  {
    var pairs := UuidDnPairs(entries);
    Dicts.AssignFails(pairs);
    if exists i :: 0 <= i < |pairs| && pairs[i].1.Err? {
      var i :| 0 <= i < |pairs| && pairs[i].1.Err?;
      assert Dn(entries[i]).Err?;
    }
  }

  /** The keys of the map are exactly the `uuid()` results of the entries, `None` included. */
  lemma EntryMapKeys(entries: seq<Entry>)
    requires EntryMap(entries).Ok?
    ensures EntryMap(entries).value.Keys == set i | 0 <= i < |entries| :: Uuid(entries[i])
  {
    var pairs := UuidDnPairs(entries);
    Dicts.AssignKeys(pairs);
    assert (set i | 0 <= i < |pairs| :: pairs[i].0) == set i | 0 <= i < |entries| :: Uuid(entries[i]);
  }

  /**
   * Last write wins: the value for an entry's `uuid()` is that entry's
   * `dn()` when no later entry has the same `uuid()`.
   */
  lemma EntryMapLastWins(entries: seq<Entry>, i: nat)
    requires i < |entries|
    requires forall j :: i < j < |entries| ==> Uuid(entries[j]) != Uuid(entries[i])
    ensures EntryMap(entries).Ok? ==>
              Dn(entries[i]).Ok? && Uuid(entries[i]) in EntryMap(entries).value &&
              EntryMap(entries).value[Uuid(entries[i])] == Dn(entries[i]).value
  {
    if EntryMap(entries).Ok? {
      Dicts.AssignLastWins(UuidDnPairs(entries), i);
    }
  }

  /** The serialisation of a list of entries: each entry's `ldif()`, in order. */
  function Dump(entries: seq<Entry>): string {
    if entries == [] then "" else EntryLdif(entries[0]) + Dump(entries[1..])
  }

  /**
   * Writing the entries `get_entries` returns one after the other, each
   * with `ldif()`, gives exactly `str(ldif)`.
   */
  lemma EntriesSerialiseToLdif(l: Ldif, entries: seq<Entry>)
    requires |entries| == |RawEntries(l)|
    requires forall i :: 0 <= i < |entries| ==> entries[i].raw == RawEntries(l)[i]
    ensures Dump(entries) == LdifStr(l)
  {
    DumpIsJoin(entries, RawEntries(l));
  }

  /** `Dump` is joining on the entry separator and ending with a blank line. */
  lemma {:induction false} DumpIsJoin(entries: seq<Entry>, parts: seq<string>)
    requires |parts| >= 1 && |entries| == |parts|
    requires forall i :: 0 <= i < |entries| ==> entries[i].raw == parts[i]
    ensures Dump(entries) == WithBlankLine(Join(parts, EntrySeparator))
    decreases |parts|
  {
    if |parts| > 1 {
      DumpIsJoin(entries[1..], parts[1..]);
    }
  }

  /**
   * Reading back `str(ldif)` gives the same `Ldif`, provided its text has
   * no trailing whitespace and no folding marker left (a marker can survive
   * construction, see `UnfoldingIsOnePass`).
   */
  lemma LdifStrRoundTrip(l: Ldif)
    requires Trimmed(l.raw) && !Contains(l.raw, Fold)
    ensures NewLdif(LdifStr(l)) == l
  {
    var t := LdifStr(l);
    assert t[..|l.raw|] == l.raw;
    forall j | 0 <= j <= |t| ensures !OccursAt(t, Fold, j) {
      if j + 2 <= |l.raw| {
        assert t[j..j + 2] == l.raw[j..j + 2];
        assert !OccursAt(l.raw, Fold, j);
      } else if j + 2 <= |t| {
        assert t[j + 1] == '\n';
      }
    }
    ReplaceAbsent(t, Fold, "");
    RStripUnique(t, l.raw);
  }

  /**
   * An entry that `ldif()` writes to its own file reads back as a one-entry
   * dump holding the same text.
   */
  lemma EntryLdifRoundTrip(e: Entry)
    requires Trimmed(e.raw) && !Contains(e.raw, Fold) && !Contains(e.raw, EntrySeparator)
    ensures RawEntries(NewLdif(EntryLdif(e))) == [e.raw]
  {
    LdifStrRoundTrip(Ldif(e.raw));
  }

  /**
   * Unfolding is a single pass: deleting one marker can bring a line break
   * next to a space and so leave a new marker in the result.
   */
  lemma UnfoldingIsOnePass()
    ensures NewLdif("a\n\n  b").raw == "a\n b"
    ensures Contains(NewLdif("a\n\n  b").raw, Fold)
  {
    var t := " b";
    assert "a\n\n  b" == ['a'] + (['\n'] + (Fold + t));
    assert Replace("b", Fold, "") == "b";
    OccursAtHead([' '] + "b", Fold, 0);
    ReplaceKeep(' ', "b", Fold, "");
    assert [' '] + "b" == t;
    ReplaceDrop(t, Fold, "");
    assert (['\n'] + (Fold + t))[1] == '\n';
    ReplaceKeep('\n', Fold + t, Fold, "");
    OccursAtHead(['a'] + (['\n'] + (Fold + t)), Fold, 0);
    ReplaceKeep('a', ['\n'] + (Fold + t), Fold, "");
    var u := "a\n b";
    assert Replace("a\n\n  b", Fold, "") == u;
    assert RStrip(u) == u;
    assert u[1..3] == Fold;
    assert OccursAt(NewLdif("a\n\n  b").raw, Fold, 1);
  }

  /**
   * The first line is never matched: the regex needs a line break before
   * `entryUUID`, so every match starts at or after the end of the first line.
   */
  lemma FirstLineUuidIgnored(s: string, i: int, w: string)
    requires UuidMatch(s, i, w)
    ensures |FirstLine(s)| <= i
  {
    UuidMatchNeedsTag(s, i, w);
    OccursAtHead(s, UuidTag, i);
  }

  /**
   * An entryUUID line with an empty value is skipped: the search goes on
   * to the next entryUUID line and returns its value.
   */
  lemma EmptyUuidSkipped(first: string, v: string, rest: string)
    requires '\n' !in first && v != [] && '\n' !in v && (rest == [] || rest[0] == '\n')
    ensures Uuid(Entry(first + UuidTag + UuidTag + v + rest)) == Some(v)
  {
    var s := first + UuidTag + UuidTag + v + rest;
    UuidMatchAfter(first + UuidTag, v, rest);
    assert s == first + UuidTag + UuidTag + (v + rest);
    NoUuidMatchBeforeEmpty(first, v + rest, s);
    UuidIsLeftmostMatch(Entry(s), |first| + |UuidTag|, v);
  }

  /** A tag followed by a non-empty value that runs to a line break or the end is a match. */
  lemma UuidMatchAfter(head: string, v: string, rest: string)
    requires v != [] && '\n' !in v && (rest == [] || rest[0] == '\n')
    ensures UuidMatch(head + UuidTag + v + rest, |head|, v)
  {
    var s := head + UuidTag + v + rest;
    var tail := UuidTag + v;
    assert s == head + tail + rest;
    assert s[|head|..|head| + |tail|] == tail;
  }

  /**
   * `Uuid`'s contract determines it: the value of the leftmost match is
   * the result.
   */
  lemma UuidIsLeftmostMatch(e: Entry, i: int, v: string)
    requires UuidMatch(e.raw, i, v)
    requires forall j, w :: 0 <= j < i ==> !UuidMatch(e.raw, j, w)
    ensures Uuid(e) == Some(v)
  {
    var r := Uuid(e);
    var k :| UuidMatch(e.raw, k, r.value) && forall j, w :: 0 <= j < k ==> !UuidMatch(e.raw, j, w);
    UuidMatchNeedsTag(e.raw, k, r.value);
    assert k == i;
    UuidMatchIsRestOfLine(e.raw, i, r.value);
    UuidMatchIsRestOfLine(e.raw, i, v);
  }

  /** Nothing matches on a first line, nor on an entryUUID line with an empty value. */
  lemma NoUuidMatchBeforeEmpty(first: string, after: string, s: string)
    requires '\n' !in first && s == first + UuidTag + UuidTag + after
    ensures forall j, w :: 0 <= j < |first| + |UuidTag| ==> !UuidMatch(s, j, w)
  {
    var n := |first|;
    assert forall k :: 1 <= k < |UuidTag| ==> UuidTag[k] != '\n';
    forall j, w | 0 <= j < n + |UuidTag| ensures !UuidMatch(s, j, w) {
      UuidMatchNeedsTag(s, j, w);
      OccursAtHead(s, UuidTag, j);
      if j < n {
        assert s[j] == first[j];
      } else if j > n {
        assert s[j] == UuidTag[j - n];
      } else {
        assert s[j + |UuidTag|] == UuidTag[0];
      }
    }
  }

  /**
   * `uuid()` returns None exactly when no "\nentryUUID: " is followed by a
   * character other than a line break.
   */
  lemma UuidNoneIff(e: Entry)
    ensures Uuid(e).None? <==>
            forall i :: !(OccursAt(e.raw, UuidTag, i) && i + |UuidTag| < |e.raw| && e.raw[i + |UuidTag|] != '\n')
  {
    forall i | OccursAt(e.raw, UuidTag, i) && i + |UuidTag| < |e.raw| && e.raw[i + |UuidTag|] != '\n'
      ensures exists w :: UuidMatch(e.raw, i, w)
    {
      UuidMatchOfTag(e.raw, i);
    }
    forall i, w ensures UuidMatch(e.raw, i, w) ==>
                        OccursAt(e.raw, UuidTag, i) && i + |UuidTag| < |e.raw| && e.raw[i + |UuidTag|] != '\n'
    {
      UuidMatchNeedsTag(e.raw, i, w);
    }
  }

  /**
   * An empty dump (the default `Ldif()`) still has one entry, the empty one,
   * and its `dn()` raises, so `get_entry_map` over it raises.
   */
  lemma EmptyDump()
    ensures NewLdif("").raw == ""
    ensures RawEntries(NewLdif("")) == [""]
    ensures EntryMap([Entry("")]).Err?
  {
    EntryMapFails([Entry("")]);
    assert Dn([Entry("")][0]).Err?;
  }
}
