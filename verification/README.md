# Plugin-class discovery and release-note sections, modelled in Dafny

This project models two small pure cores of the Datadog Agent.

- **Subclass resolution** (`findSubclassOf` in `pkg/collector/py/utils.go`). The Agent looks for a check's entry point in a loaded Python module. It validates its two arguments, then walks `dir(module)` in order and returns the first attribute that is a type, is a subclass of the base class, and does not compare equal to it. If none qualifies, it reports an error.
- **Module names** (`getModuleName` in the same file). It returns the last `.`-separated component of a module path, using Go's `strings.Split`.
- **Release-note sections** (the `done` task in `tasks/changelog.py`). It reads a Markdown note line by line and collects a dict from heading title to section text. It also derives the output file name.

Modules:

- `Results` (results.dfy): `Option` and `Result`.
- `Subclass` (subclass.dfy): the resolver. Python objects are foreign, so each `dir` entry is abstracted to a `Symbol`. A `Symbol` is either `NonType`, or a `Type` carrying the answers of the two C-API predicates `PyObject_IsSubclass` and `PyObject_RichCompareBool(.., Py_EQ)`. Each answer is 1, 0, or -1 for a raised exception. The two arguments are `ObjRef`s, either `Nil` or an object with its type-check and module-check outcomes. A found class is reported by its index in the `dir` list.
- `ModuleName` (module_name.dfy): `Split`, its inverse `Join`, and `GetModuleName`.
- `PyStr` (pystr.dfy): Python 3 `str.strip()`. It strips the characters `str.isspace()` accepts.
- `Changelog` (changelog.dfy): the loop state as `Parser(sections, order, current)`, where `order` is the dict's key insertion order. It also holds `Step`, `Run` and `Parse`. An independent description of the result in terms of the input lines uses `HeadingTitles`, `LastHeadingOf` and `Body`. The output name derivation is here too.

Two points about the code's behaviour that the model follows:

- The "not the base" test is not an identity test. Line 135 of `pkg/collector/py/utils.go` uses `RichCompareBool(base, Py_EQ) != 1`, which is an equality test. A comparison that raises (-1) therefore lets the class through, and the model says so (`Qualifies`).
- The nil-check message names neither argument, and the not-found message prints `base` twice. The model carries error kinds only, not message text.

## Model

| member | source | states |
|---|---|---|
| Subclass.FindSubclassOf | pkg/collector/py/utils.go:105-141 | Nil arguments fail first, then a non-type base, then a non-module module. A success is a position in `dir` whose entry is a type, a subclass of `base` (IsSubclass = 1), and not equal to `base` (RichCompareBool != 1). No earlier entry qualifies. The not-found error occurs exactly when the arguments are valid and no entry qualifies. |
| Subclass.ScanFrom | pkg/collector/py/utils.go:124-138 | The loop from a start position returns the first qualifying index at or after it. It returns nothing exactly when no entry from there on qualifies. |
| Subclass.ValidationIgnoresDir | pkg/collector/py/utils.go:110-122 | An invalid argument gives the same validation error whatever the module's symbol list holds. That error is never the not-found error. |
| Subclass.FirstQualifyingIsReturned | pkg/collector/py/utils.go:126-137 | When the arguments are valid, the first qualifying position in dir order is exactly what is returned. |
| Subclass.NonTypeIsSkipped | pkg/collector/py/utils.go:130-132 | Inserting a non-type symbol anywhere in `dir` never stops the scan and is never returned. It only shifts a found index that lies at or after the insertion point. |
| Subclass.ScanConcat | pkg/collector/py/utils.go:126-140 | Over `front + back`, a hit in `front` wins. Otherwise the result is `back`'s result offset by `front`'s length, and not-found holds only if neither part has a hit. |
| Subclass.BaseNeverReturned | pkg/collector/py/utils.go:134-136 | If `dir` contains only `base` itself (under any number of names) and non-types, the result is an error. Only the comparison answer 1 is assumed for `base`, which `RichCompareBool`'s identity shortcut guarantees. Its subclass answer may be anything, since a metaclass hook can make it 0 or -1. |
| Subclass.CheckArgs | pkg/collector/py/utils.go:110-122 | The validation chain in source order: nil first, then a non-type base, then a non-module module. It passes exactly when `ArgsValid` holds and never yields the not-found error. |
| Subclass.Qualifies | pkg/collector/py/utils.go:130-135 | An entry is accepted exactly when it is a type, its `IsSubclass` answer is 1, and its equality answer is not 1, so 0 and -1 both let it through. |
| ModuleName.Split | pkg/collector/py/utils.go:145-147 | `strings.Split(s, ".")` always yields at least one piece, so taking the last piece is defined for every input, including "". |
| ModuleName.SplitSpec | pkg/collector/py/utils.go:145 | No piece contains a dot, and joining the pieces with dots gives back `s`. A dot-free `s` is a single piece, and a path with a dot has several. |
| ModuleName.SplitJoin | pkg/collector/py/utils.go:145 | Round trip in the other direction: splitting the dot-join of dot-free pieces gives those pieces back. |
| ModuleName.GetModuleName | pkg/collector/py/utils.go:143-148 | The result is defined for every input, including "". It contains no dot and is a suffix of the path. It is the whole path when the path has no dot, and otherwise it is preceded by a dot. |
| ModuleName.ModuleNameUnique | pkg/collector/py/utils.go:143-147 | Those three properties determine the result: any dot-free suffix that is the whole path or is preceded by a dot is the module name. |
| ModuleName.QualifiedName | pkg/collector/py/utils.go:143-147 | `prefix + "." + name` with a dot-free `name` yields `name` (so `foo.bar.baz` gives `baz` and a trailing dot gives ""). |
| ModuleName.ModuleNameIdempotent | pkg/collector/py/utils.go:144-148 | Taking the module name of a module name changes nothing. |
| PyStr.Strip | tasks/changelog.py:35 | `str.strip()` with no argument: trailing whitespace is removed from the string left after leading whitespace is removed. Its properties are in `StripSpec`, `StripPadded` and `StripIdempotent`. |
| PyStr.TrimLeftSpec | tasks/changelog.py:35 | The result is the suffix left after dropping leading whitespace: the dropped prefix is all whitespace, and the result does not start with whitespace. |
| PyStr.TrimRightSpec | tasks/changelog.py:35 | The result is the prefix left after dropping trailing whitespace: the dropped suffix is all whitespace, and the result does not end with whitespace. |
| PyStr.StripSpec | tasks/changelog.py:35 | A stripped title neither starts nor ends with whitespace. It is a contiguous slice of its input, and everything outside that slice is whitespace. |
| PyStr.StripPadded | tasks/changelog.py:35 | Any whitespace, then a core with non-whitespace ends, then whitespace, strips to exactly that core. |
| PyStr.StripIdempotent | tasks/changelog.py:35 | Stripping twice is stripping once. |
| Changelog.IsHeading | tasks/changelog.py:34 | A line is a heading exactly when its first two characters are `# `. |
| Changelog.Title | tasks/changelog.py:35 | A heading's section key is the line after its first two characters, stripped as `str.strip()` does. |
| Changelog.Step | tasks/changelog.py:33-38 | One loop iteration keeps the loop invariant `Valid`: the open section exists, so `+=` on it cannot raise. A heading opens its stripped title with empty text and adds the key. A content line leaves the key set and open section alone. Every section other than the open one keeps its text. |
| Changelog.Run | tasks/changelog.py:33-38 | The loop applies `Step` to the lines in order, and every state it passes through satisfies `Valid`. |
| Changelog.Parse | tasks/changelog.py:30-38 | The loop over a whole note ends in a state satisfying `Valid`. |
| Changelog.ParseKeepsOrder | tasks/changelog.py:30-36 | The recorded dict insertion order lists every key exactly once, and nothing else. |
| Changelog.LastHeadingOf | tasks/changelog.py:34-36 | The position found is a heading with the given title, and no later heading has that title. It is -1 when no heading has that title. |
| Changelog.CurrentIsLastHeading | tasks/changelog.py:31-36 | `current_section` is None until the first heading. After that it is the title of the last heading read. |
| Changelog.SectionContent | tasks/changelog.py:29-38 | A key is present exactly when some heading has it as stripped title. Its text is the in-order concatenation of the non-heading lines after the last such heading, up to the next heading or the end. Heading lines never appear in a section. |
| Changelog.KeysAreHeadingTitles | tasks/changelog.py:30-38 | The key set equals the set of distinct stripped heading titles. |
| Changelog.NoHeadingsNoSections | tasks/changelog.py:30-38 | A note with no heading yields an empty dict. |
| Changelog.PreambleDropped | tasks/changelog.py:37 | Lines before the first heading are discarded: removing them leaves the whole result unchanged. |
| Changelog.RepeatedHeadingResets | tasks/changelog.py:35-36 | After a heading whose title does not recur, its section holds exactly the body that follows it, whatever came before, including earlier headings with the same title. |
| Changelog.HashWithoutSpaceIsContent | tasks/changelog.py:34-38 | A line starting with `#` but not `# ` (for example `## X` or `#x`) is not a heading. It is appended to the open section. |
| Changelog.NoteName | tasks/changelog.py:42 | `release_note[:-3]` is a prefix of the file name, three characters shorter, or "" for names shorter than three characters. |
| Changelog.OutputPath | tasks/changelog.py:42 | The output file is `releasenotes/notes/` followed by the note's name and `.yaml`. |
| Changelog.MarkdownNoteName | tasks/changelog.py:42 | For `stem.md` the name is `stem`, and the output file is `releasenotes/notes/stem.yaml`. |
| Changelog.OutputPathInjective | tasks/changelog.py:42 | Distinct Markdown notes are written to distinct output files. |

## Left out

- `StickyLock`, `NewStickyLock` and `Unlock` (pkg/collector/py/utils.go:30-49) are left out: they do GIL handling and OS-thread pinning, which is concurrency and foreign C calls.
- `Initialize` (pkg/collector/py/utils.go:54-102) is left out: it is a sequence of CPython C-API calls on global interpreter state. Whether a second call re-injects the synthetic modules is therefore not modelled.
- `GetInterpreterVersion` (pkg/collector/py/utils.go:151-162) is left out because it is a foreign call.
- Inside `findSubclassOf`, the GIL acquire and release (lines 107-108) are left out. So are the error message texts, including the not-found message that prints `base` twice.
- `dir(module)` is an input sequence of any order. CPython's `PyObject_Dir` returns the names sorted, so "first in `dir` order" in practice means the first qualifying attribute by name. The model does not rely on that sorting.
- Subclass.FindSubclassOf: a -1 answer from `IsSubclass` or `RichCompareBool` leaves a Python exception set, and `findSubclassOf` never clears it (pkg/collector/py/utils.go:126-140). The scan goes on, and the class it returns or the not-found error it reports comes with that exception still pending for the caller's next Python call. The model records only the return value, not the pending exception.
- Subclass.FindSubclassOf: `GetAttrString` returning nil for a listed name is not modelled. Every listed name is assumed to resolve to some object.
- Subclass.FindSubclassOf: the Python objects are abstract. "Subclass of base" and "equal to base" are the recorded C-API answers, not a class hierarchy.
- The `new` task in tasks/changelog.py (filesystem, uuid, editor) is left out.
- In `done`, these are left out as foreign libraries and I/O: listing `.changelog`, reading the files, the pandoc conversion (lines 39-40), the YAML dump (line 43) and the file removal (line 44). The model parses one note's lines and derives its output path.
- Changelog.ParseKeepsOrder: the key insertion order is stated only as "each key once, exactly the keys", not as the order of first appearance. The YAML dump sorts keys anyway.
- PyStr.Strip follows Python 3 `str.isspace()`. Under Python 2 byte strings, only the six ASCII whitespace characters would be stripped.
- pkg/flare/archive_dca.go and pkg/collector/check/core/testing/common.go are not part of this model. They are archive and test-double plumbing.
