# ldif-git-backup: the LDIF core, modelled in Dafny

`ldif-git-backup.py` backs up an OpenLDAP directory. It reads the whole
`slapcat` dump as one string and splits it into entries. Each entry is
written to a file named after its `entryUUID`. This project models the
text-processing core of that script:

- `Ldif` takes the dump. It unfolds wrapped lines by deleting every line
  break followed by a space, in one left-to-right pass, and then strips
  trailing whitespace. It splits the result into entries on the blank-line
  separator `"\n\n"`.
- `Entry` holds one entry's text. It extracts the DN (the rest of the first
  line after its first `": "`) and the `entryUUID` value. It serialises the
  entry as its text plus a blank line.
- `Dit` builds the map from `entryUUID` to DN over a list of entries.

Files:

- `wrappers.dfy` (module `Wrappers`): `Option` stands for a value or
  Python's `None`. `Result` stands for a value or the `IndexError` a call
  raises.
- `strings.dfy` (module `Strings`): the Python `str` operations the script
  uses, with their meaning proved: `replace` (`Replace`), `rstrip`
  (`RStrip`, over Python's `isspace` character set), `split(sep)` (`Split`)
  and `split(sep, 1)` (`BeforeFirst`, `AfterFirst`). `Find`, `IndexOf` and
  `Join` are helpers of the model, not calls the script makes: they state
  where a pattern first occurs and what splitting undoes.
- `dicts.dfy` (module `Dicts`): a dict built by assigning `d[k] = v` for
  each pair in turn, where computing `v` may raise.
- `ldif.dfy` (module `LdifGitBackup`): `Ldif`, `Entry` and `Dit`.

No object is changed after it is built, so `Ldif`, `Entry` and `Dit` are
datatypes. For `Entry` and `Dit` the datatype constructor is the Python
`__init__`, which only stores its argument. `Ldif.__init__` unfolds and
strips its argument, and is modelled by `NewLdif`. The datatype constructor
`Ldif(raw)` stores `raw` as it is, so the members that take any `l: Ldif`
(`GetEntries`, `LdifStrRoundTrip`, `EntriesSerialiseToLdif`) also cover
values that `Ldif.__init__` never builds. Every `NewLdif` result is such a
value, so what they state holds for it too. The two loops in the source
stay loops: `GetEntries` and `GetEntryMap` are methods, proved against the
functions `RawEntries` and `EntryMap`. `Entry.dn()` raises `IndexError`
when the first line has no `": "`. The model returns `Err(IndexError)` in
that case, and `get_entry_map` then raises as a whole. The regular
expression in `Entry.uuid()` becomes the predicate `UuidMatch` and a
leftmost search over positions.

## Model

| member | source | states |
|---|---|---|
| `Strings.ReplaceIsSplitJoin` | ldif-git-backup.py:16 | one left-to-right replacing pass equals splitting on the pattern and joining with the replacement, so every character outside the deleted folding markers is kept, in order |
| `Strings.Replace` | ldif-git-backup.py:16 | the definition of `str.replace`; its properties are in `Strings.ReplaceIsSplitJoin` |
| `Strings.ReplaceAbsent` | ldif-git-backup.py:16 | a text without the pattern is left unchanged by `replace` |
| `LdifGitBackup.LdifStr` | ldif-git-backup.py:19-20 | the definition of `str(ldif)`, `raw + "\n\n"`; its properties are in `LdifGitBackup.LdifStrRoundTrip` and `LdifGitBackup.EntriesSerialiseToLdif` |
| `Strings.RStrip` | ldif-git-backup.py:17 | `rstrip()` returns a prefix of its input that does not end in whitespace, and everything it cut off is whitespace |
| `Strings.RStripUnique` | ldif-git-backup.py:17 | those three properties determine the result of `rstrip()` |
| `LdifGitBackup.NewLdif` | ldif-git-backup.py:15-17 | `Ldif(text).raw` is a prefix of the unfolded text, the rest of which is whitespace; it never ends in whitespace, in particular never in a line break |
| `LdifGitBackup.UnfoldingIsOnePass` | ldif-git-backup.py:16 | unfolding is a single pass: `Ldif("a\n\n  b").raw` is `"a\n b"`, which still contains a folding marker |
| `LdifGitBackup.LdifStrRoundTrip` | ldif-git-backup.py:15-20 | reading `str(ldif)` back gives the same `Ldif` whenever its text has no trailing whitespace and no folding marker |
| `LdifGitBackup.EmptyDump` | ldif-git-backup.py:15-23 | the default empty `Ldif` has one raw entry, the empty one, and the map over that entry raises |
| `Strings.Split` | ldif-git-backup.py:22-23 | `split` returns at least one piece, and exactly `[""]` for `""`; no piece contains the separator; each piece but the last ends before the leftmost separator; joining the pieces with the separator gives the input back |
| `Strings.SplitUnique` | ldif-git-backup.py:22-23 | any list of pieces with the properties above is the result of `split` |
| `LdifGitBackup.RawEntries` | ldif-git-backup.py:22-23 | the definition of `get_raw_entries`, splitting `raw` on `"\n\n"`; its properties are in `Strings.Split` and `Strings.SplitUnique` |
| `LdifGitBackup.GetEntries` | ldif-git-backup.py:25-29 | `get_entries` returns one entry per raw piece, with the same length and order, and entry i holds raw piece i |
| `LdifGitBackup.EntryStr` | ldif-git-backup.py:37-38 | `str(entry)` is the same text as `entry.ldif()` |
| `LdifGitBackup.EntryLdif` | ldif-git-backup.py:50-51 | the definition of `entry.ldif()`, `raw + "\n\n"`; its properties are in `LdifGitBackup.EntryLdifRoundTrip` and `LdifGitBackup.DumpIsJoin` |
| `LdifGitBackup.EntriesSerialiseToLdif` | ldif-git-backup.py:19-20 | the `ldif()` texts of the entries `get_entries` returns, written one after another, are exactly `str(ldif)` |
| `LdifGitBackup.DumpIsJoin` | ldif-git-backup.py:50-51 | writing entries with `ldif()` one after another is joining their texts on the blank line and ending with one more blank line |
| `LdifGitBackup.EntryLdifRoundTrip` | ldif-git-backup.py:50-51 | an entry's `ldif()` text, read back as a dump, is a single raw entry with the same text, provided that text has no trailing whitespace, no folding marker and no blank line |
| `LdifGitBackup.FirstLine` | ldif-git-backup.py:41 | `raw.split('\n', 1)[0]` is a prefix without a line break that ends at the first line break or at the end |
| `Strings.BeforeFirst` | ldif-git-backup.py:41 | for a non-empty separator, `s.split(sep, 1)[0]` is the text before the leftmost separator, or all of `s` when there is none |
| `Strings.AfterFirst` | ldif-git-backup.py:41 | for a non-empty separator, `s.split(sep, 1)[1]` exists exactly when the separator occurs, and then `s` is the part before, the separator and this part |
| `LdifGitBackup.Dn` | ldif-git-backup.py:40-41 | `dn()` raises IndexError exactly when the first line has no `": "`; otherwise it returns the rest of the first line after its leftmost `": "`, which holds no line break |
| `LdifGitBackup.SearchUuid` | ldif-git-backup.py:44 | the search from a position returns the value of the leftmost regex match at or after it, or `None` when nothing matches there |
| `LdifGitBackup.UuidMatch` | ldif-git-backup.py:44 | the definition of a match of `[\n]entryUUID: ([^\n]+)` at a position with a given group; its properties are in `LdifGitBackup.UuidMatchIsRestOfLine`, `LdifGitBackup.UuidNoneIff` and `LdifGitBackup.FirstLineUuidIgnored` |
| `LdifGitBackup.Uuid` | ldif-git-backup.py:43-48 | `uuid()` is `None` exactly when the regex matches nowhere; otherwise it is a non-empty value without a line break, taken from the leftmost match |
| `LdifGitBackup.UuidIsLeftmostMatch` | ldif-git-backup.py:43-48 | the value of the leftmost match is what `uuid()` returns |
| `LdifGitBackup.UuidMatchIsRestOfLine` | ldif-git-backup.py:44 | the match is greedy: the captured value is the whole rest of the line after `entryUUID: ` |
| `LdifGitBackup.UuidNoneIff` | ldif-git-backup.py:44-48 | `uuid()` is `None` exactly when no `"\nentryUUID: "` is followed by a character other than a line break |
| `LdifGitBackup.FirstLineUuidIgnored` | ldif-git-backup.py:44 | the regex needs a line break before `entryUUID`, so every match starts at or after the end of the first line: an `entryUUID` on the first line is never matched |
| `LdifGitBackup.EmptyUuidSkipped` | ldif-git-backup.py:44 | an `entryUUID` line with an empty value is skipped and the next `entryUUID` line's value is returned |
| `LdifGitBackup.GetEntryMap` | ldif-git-backup.py:59-63 | `get_entry_map` returns the map that assigns, entry by entry, `uuid()` to `dn()`, or raises as the first failing `dn()` does |
| `LdifGitBackup.EntryMap` | ldif-git-backup.py:59-63 | the definition of the result of `get_entry_map`: `Dicts.Assign` over the `(uuid(), dn())` pairs of the entries; its properties are in `LdifGitBackup.EntryMapFails`, `LdifGitBackup.EntryMapKeys` and `LdifGitBackup.EntryMapLastWins` |
| `LdifGitBackup.EntryMapFails` | ldif-git-backup.py:59-63 | `get_entry_map` raises exactly when some entry's `dn()` raises |
| `LdifGitBackup.EntryMapKeys` | ldif-git-backup.py:61-62 | the keys of the map are exactly the `uuid()` results of the entries, `None` included |
| `LdifGitBackup.EntryMapLastWins` | ldif-git-backup.py:61-62 | for a UUID shared by several entries, the value is the `dn()` of the last of them in list order |
| `Dicts.AssignFails` | ldif-git-backup.py:60-63 | a dict-building loop raises exactly when one of its values raises |
| `Dicts.AssignErrExtends` | ldif-git-backup.py:60-63 | an exception raised part-way ends the whole loop with that exception; the partial dict is lost |
| `Dicts.AssignKeys` | ldif-git-backup.py:60-63 | the keys of the built dict are exactly the keys assigned |
| `Dicts.AssignLastWins` | ldif-git-backup.py:60-63 | a key holds the value of its last assignment |
| `Dicts.Assign` | ldif-git-backup.py:60-63 | the definition of the dict a loop of `d[k] = v` assignments leaves, or the first exception raised by a value; its properties are in `Dicts.AssignFails`, `Dicts.AssignErrExtends`, `Dicts.AssignKeys` and `Dicts.AssignLastWins` |

## Left out

- `main` (ldif-git-backup.py:65-77) is not modelled. It runs `slapcat`
  through a subprocess, writes one file per entry under a fixed directory,
  and builds each file path from `uuid()`. That path building fails when
  `uuid()` is `None`. All of this is process and file I/O.
- The commented-out YAML dump and the `yaml` import are not modelled. They
  are a foreign library and dead code.
- `re.search` is not modelled as a general regex engine. The one pattern
  used is stated directly as `UuidMatch` and searched for from left to
  right.
- `Strings.Split`, `Strings.Replace`, `Strings.BeforeFirst` and
  `Strings.AfterFirst` require a non-empty separator. An empty one makes
  Python raise `ValueError` for `split` and `split(sep, 1)` and behave
  differently for `replace`. The script passes `"\n "` to `replace`,
  `"\n\n"` to `split`, and `"\n"` and `": "` to `split(sep, 1)`, all
  non-empty.
- Strings are sequences of Unicode scalar values. A Python string can also
  hold lone surrogate code points, and the model has no such strings.
- `get_entry_map` returns a Python dict, which remembers the order in which
  keys were first inserted. `EntryMap` is a Dafny `map`, which has no order.
  Nothing in the script iterates the result, because the YAML dump that
  would have is commented out.
- Python object identity and reference semantics are not modelled. The
  objects are never mutated after construction, so values are used instead.
