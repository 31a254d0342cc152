# Group file database (htpasswd `Group`)

A Dafny model of the `Group` class of the htpasswd package. The class manages
a group file in which each line reads `group: user1 user2 ...`. Opening the
file reads it into a loaded snapshot and a working copy. Queries and guarded
membership changes act on the working copy. Closing rewrites the file only
when the working copy differs from the snapshot.

Modules:

- `Wrappers`: `Option`, `Result` and `Outcome` (success or an error value).
- `OrderedMultiDict`: the ordered multi-dictionary the class stores its groups
  in, modelled as a sequence of `(key, value)` items.
  - `Add` appends an item.
  - `Keys` gives the distinct keys in the order of their first item.
  - `GetList` gives the values of one key, in order.
  - `PopValue` removes one matching item.
  - Equality compares the whole item sequences, and a copy is a plain value with no aliasing.
- `PyStr`: the Python 3 string operations the parser and writer use.
  - The regular-expression substitution that deletes backslash-newline pairs.
  - `str.splitlines()`, with its full set of line boundaries.
  - `split(": ", 1)`, returning `None` where unpacking into two names raises.
  - `str.split()`, with Python 3's whitespace set.
  - `" ".join`.
- `GroupFormat`: reading a file into items (`Parse`) and writing items as file contents (`Serialise`), with the round-trip between the two.
- `GroupDb`: the `Group` class itself.
  - Fields `groups` (the snapshot) and `newGroups` (the working copy).
  - `Open` and `Close` stand for `__enter__` and `__exit__`. `Open` takes the file text as a parameter. `Close` returns `None` for "no write", or `Some(contents)` with the exact text to write.
  - The three query functions, and the two mutation methods that return the error kind instead of raising it.

On these points the model follows what the code does:

- Duplicate users on one line of the file are kept, not collapsed: every token is added.
- An empty logical line is an error, because splitting it on `": "` gives one part and the unpack fails.
- A key with no remaining items is not a group. A line `g: ` with no users creates no group, and a group is not written with an empty member list.
- Reading stops at the first malformed line. The items of the earlier lines stay in `groups`, and the working copy is not replaced.

## Model

| member | source | states |
|---|---|---|
| OrderedMultiDict.Add | htpasswd/group.py:64 | `add(k, v)` appends one item; what it does to the value lists and the key order is stated by AddGetList and AddKeys, and to uniqueness by AddKeepsUnique |
| OrderedMultiDict.Keys | htpasswd/group.py:48-50 | `keys()` lists every key that has an item, each exactly once |
| OrderedMultiDict.GetList | htpasswd/group.py:56-58 | `getlist(k)` holds exactly the values paired with `k`, and no more values than there are items |
| OrderedMultiDict.PopValue | htpasswd/group.py:72 | `popvalue(k, v)` removes one occurrence of the item `(k, v)` and keeps the rest in order |
| OrderedMultiDict.GetListEmpty | htpasswd/group.py:58 | a key's value list is empty exactly when the key has no item |
| OrderedMultiDict.AddGetList | htpasswd/group.py:64 | `add(g, u)` appends `u` to the list of `g` and leaves every other key's list unchanged |
| OrderedMultiDict.AddKeys | htpasswd/group.py:64 | `add` keeps the existing key order and puts a new key last |
| OrderedMultiDict.AddKeepsUnique | htpasswd/group.py:60-64 | adding a value the key does not hold keeps every value list free of duplicates |
| OrderedMultiDict.PopValueGetList | htpasswd/group.py:72 | `popvalue(g, u)` removes one `u` from the list of `g`, keeping the order of the rest, and changes no other list |
| OrderedMultiDict.PopValueKeepsUnique | htpasswd/group.py:66-72 | with duplicate-free lists, `popvalue` keeps them duplicate-free and the removed pair is gone |
| OrderedMultiDict.GetListConcat | htpasswd/group.py:35-36 | the values of a key in two item runs are those of the first run followed by those of the second |
| PyStr.RemoveContinuations | htpasswd/group.py:32 | deleting backslash-newline pairs never lengthens the text and never adds a character |
| PyStr.RemoveContinuationsNone | htpasswd/group.py:32 | text containing no backslash-newline pair is left unchanged |
| PyStr.RemoveContinuationsSplice | htpasswd/group.py:32 | a backslash-newline pair is deleted wherever it stands, independently of the text around it |
| PyStr.RemoveContinuationsLine | htpasswd/group.py:32 | a newline not preceded by a backslash is kept, and the text before it is untouched |
| PyStr.LineEnd | htpasswd/group.py:33 | the first line ends at the first line boundary, or at the end of the text |
| PyStr.SplitLines | htpasswd/group.py:33 | no line produced by `splitlines()` contains a line boundary |
| PyStr.SplitLinesTerminated | htpasswd/group.py:33 | splitting newline-terminated lines that contain no boundary gives those lines back |
| PyStr.SeparatorTail | htpasswd/group.py:34 | a text not starting with `": "` contains it exactly when its tail does |
| PyStr.SplitOnce | htpasswd/group.py:34 | `split(": ", 1)` fails exactly when there is no `": "`; otherwise the text is the name, the separator and the rest, and the name contains no `": "` |
| PyStr.SplitOnceAt | htpasswd/group.py:34 | for a name that contains no `": "`, splitting `name + ": " + rest` gives exactly `(name, rest)` |
| PyStr.WordEnd | htpasswd/group.py:35 | the first word ends at the first whitespace character, or at the end of the text |
| PyStr.Tokens | htpasswd/group.py:35 | every token of `split()` is a non-empty run with no whitespace |
| PyStr.TokensJoin | htpasswd/group.py:35 | `split()` of the space-joined words gives back the words when each is non-empty with no whitespace |
| PyStr.Join | htpasswd/group.py:46 | `" ".join` of the member list; TokensJoin states that `split()` undoes it and JoinChars which characters it holds |
| PyStr.JoinChars | htpasswd/group.py:46 | every character of a space-join is a space or a character of one of the words |
| GroupFormat.LineItems | htpasswd/group.py:35-36 | the items one line adds, one `(group, token)` item per token in order; LineItemsView states the key and member list they give, LineItemsConcat and LineItemsSnoc how they grow token by token |
| GroupFormat.ParseLine | htpasswd/group.py:34-36 | the items of one logical line, or nothing when it has no `": "`; ParseLineOf states the group and members it yields, ParseFails that a line without `": "` makes reading fail |
| GroupFormat.LogicalLines | htpasswd/group.py:32-33 | continuation removal followed by `splitlines()`; ContinuationJoins states that a backslash-newline joins two physical lines, RemoveContinuationsTerminated that written text passes through unchanged |
| GroupFormat.LoadLines | htpasswd/group.py:33-36 | the items the logical lines add, in order; LoadWritten states that reading back written lines gives the groups' items |
| GroupFormat.Parse | htpasswd/group.py:31-36 | reading a whole file; ParseFails states when it fails, RoundTrip what it gives back for a written file |
| GroupFormat.LineItemsConcat | htpasswd/group.py:35-36 | the items of a line are added token by token, so the items of a token list split in two are the items of the parts |
| GroupFormat.LineItemsSnoc | htpasswd/group.py:35-36 | one more token adds exactly one `(group, token)` item at the end |
| GroupFormat.LineItemsView | htpasswd/group.py:35-36 | a line adds its group as the only key when it has tokens and adds no group when it has none; the group's list is the tokens in order |
| GroupFormat.ParseLineOf | htpasswd/group.py:34-36 | a line `group: users` with no `": "` in `group` adds one `(group, token)` item per token of `users`, in order |
| GroupFormat.ParseFails | htpasswd/group.py:33-34 | reading fails exactly when some logical line, an empty one included, contains no `": "` |
| GroupFormat.ContinuationJoins | htpasswd/group.py:32-33 | a backslash-newline joins two physical lines into one logical line |
| GroupFormat.RemoveContinuationsTerminated | htpasswd/group.py:32 | written lines, which contain no newline and do not end in a backslash, pass unchanged through the continuation removal |
| GroupFormat.Line | htpasswd/group.py:45-46 | the `"%s: %s"` line of one group; LineShape states that for valid names it holds no line boundary and does not end in a backslash |
| GroupFormat.Lines | htpasswd/group.py:44-46 | one written line per key, one line for each key; LinesAt states which line stands at each position and LinesAgree that they depend only on the member lists |
| GroupFormat.Serialise | htpasswd/group.py:44-46 | the full text closing writes; RoundTrip states that reading it back gives the same key order and member lists, and SerialiseStable that writing again gives the same text |
| GroupFormat.LineShape | htpasswd/group.py:45-46 | the line written for a group of valid names contains no line boundary and does not end in a backslash |
| GroupFormat.LoadWritten | htpasswd/group.py:33-36 | reading back the lines written for some keys gives those groups' items, group after group |
| GroupFormat.GroupedGetList | htpasswd/group.py:35-36 | after reading back, each written group has its original member list and every other name has none |
| GroupFormat.WithoutLineItems | htpasswd/group.py:35-36 | removing group `k` from a line of group `k` leaves nothing |
| GroupFormat.WithoutLineTail | htpasswd/group.py:35-36 | removing group `k` from the rest of a line of `k` followed by other groups leaves the other groups' items |
| GroupFormat.KeysPrepend | htpasswd/group.py:35-36 | a group whose line comes first stays first in the key order |
| GroupFormat.GroupedKeys | htpasswd/group.py:35-36 | groups read back in the order they were written keep that key order |
| GroupFormat.RoundTrip | htpasswd/group.py:31-46 | for valid names, reading what closing writes succeeds and gives the same key order and the same member list for every group |
| GroupFormat.LinesAt | htpasswd/group.py:44-46 | the i-th written line is the line of the i-th key |
| GroupFormat.LinesAgree | htpasswd/group.py:44-46 | the written lines depend only on each group's member list |
| GroupFormat.SerialiseStable | htpasswd/group.py:31-46 | writing what was read from a written file gives the same contents again |
| GroupDb.Group.constructor | htpasswd/group.py:25-28 | a new object keeps the path and starts with an empty snapshot and an empty working copy |
| GroupDb.Group.Open | htpasswd/group.py:30-38 | reading adds the items of the logical lines to `groups` in order, up to the first malformed line; success holds exactly when every line is well formed, and then the working copy equals the snapshot and the snapshot is the old one followed by the parsed items |
| GroupDb.Group.Close | htpasswd/group.py:40-46 | no write happens exactly when the working copy equals the snapshot; otherwise the text written is one `group: users` line per key, in key order |
| GroupDb.Group.ShowGroups | htpasswd/group.py:48-50 | the groups are listed each once, and exactly the names with a member are listed |
| GroupDb.Group.IsGroupExists | htpasswd/group.py:52-54 | a group exists exactly when some user is paired with it |
| GroupDb.Group.IsUserInAGroup | htpasswd/group.py:56-58 | true exactly when the pair is in the working copy, and never for a group that does not exist |
| GroupDb.Group.AddUserToGroup | htpasswd/group.py:60-64 | a user already in the group gives `UserAlreadyInAGroup` and no change; otherwise the pair is appended, the user is then in the group, the group is listed, the group's list gains the user at the end, other groups and the snapshot are unchanged, and duplicate-free lists stay duplicate-free |
| GroupDb.Group.DeleteUserFromGroup | htpasswd/group.py:66-72 | a missing group gives `GroupNotExists` (checked first) and a user not in the group gives `UserNotInAGroup`, both with no change; otherwise one pair is removed and the user leaves the group's list once, order kept; other groups and the snapshot are unchanged, and with duplicate-free lists the user is then no longer in the group |

## Left out

- File I/O: `Open` takes the text that `read()` returns, and `Close` returns the text to write. Opening, truncating and writing the file, and the errors these raise, are not modelled. Python's universal-newline translation on reading also belongs to that I/O.
- The context-manager protocol: `__enter__` and `__exit__` are the explicit methods `Open` and `Close`. Exceptions passing through `__exit__` and its `type`, `value` and `traceback` arguments are not modelled.
- The regular-expression engine: only the one substitution, deleting every backslash-newline pair in a single left-to-right pass, is modelled.
- The `__str__` messages of the three exception classes, and their `HtException` base class, which is not part of this model. Only the error kind is kept.
- The internals of `orderedmultidict`, which is not part of this model; the item-sequence model stands in for it.
- OrderedMultiDict.PopValue: removes the last matching item, but its contract promises only that one occurrence is removed. The library's choice of occurrence is not visible here.
- OrderedMultiDict.Keys: orders keys by their first remaining item. After a `popvalue` of a group's first item, the library may keep the group in its former place instead.
- Character classes are those of Python 3 `str`. Python 2 byte strings, with their ASCII-only whitespace and line boundaries, are not modelled.
- Concurrent access to the file by several processes is not modelled.
