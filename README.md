# ccopy-cpp in Dafny

ccopy is a clang tool for classes that opt in by deriving directly from `C4`.
For such a class it writes a copy constructor into the source. The tool
sorts the fields into copy groups; the constructor it writes copies each
group on a `std::thread` of its own. This project models the tool's own logic and
proves what it does:

- `string_order.dfy` (module `StringOrder`): the order in which
  `std::map<std::string, …>` and `std::set<std::string>` hand back their
  strings. `Less` is `std::string`'s `operator<`. `Sorted` is the one
  ascending listing of a set.
- `copy_groups.dfy` (module `Groups`): `ccopy::CopyGroups`.
  - `DetermineGroupOf` is the first-match classifier over four clang type
    predicates.
  - `Divide`/`Partition` is the map `divideBy` builds, as a function of the
    fields.
  - The class `CopyGroups` holds that map in a field, and `DivideBy`
    updates it in a loop.
  - `SortedEntries` is the walk from `begin()` to `end()`.
- `text.dfy` (module `Text`): concatenating pieces of text, and where a
  piece sits in the result.
- `ccopy.dfy` (module `CCopy`): the tool itself.
  - The clang `Rewriter` is an append-only buffer. Every insertion of
    `inject` goes to the class's end location with "insert after"
    semantics, so the text reads in call order.
  - `Injector.Inject` is `inject`. The function `InjectText` says what
    `inject` appends.
  - `Visitor.VisitCXXRecordDecl` and `Visitor.IsC4` decide which classes
    get a constructor. `Visitor.TraverseDecls` feeds the visitor a
    translation unit's classes in order.
  - `OutputName` is the output-file name that `dump` derives.

A class is seen only through what the tool asks clang about it: its name,
its fields (name and four type flags), whether it has a user-declared copy
constructor, whether it is a complete definition, and the printed type of
each direct base.

The model follows the code's containers and constants:
- The group labels are the two string constants `"c4_fields"` and
  `"default_group"` (tool/CopyGroups.cpp:5-6).
- Groups are visited in ascending label order, so `"c4_fields"` comes
  first, because they are kept in a `std::map`.
- Names within a group come out in ascending order with duplicates
  removed, because each group is a `std::set`.

## Model

| member | source | states |
|---|---|---|
| StringOrder.Less | tool/CopyGroups.h:24 | definition: `std::string`'s `operator<`, the key order of the map and the set: character by character, a proper prefix first |
| StringOrder.LessIrreflexive | tool/CopyGroups.h:24 | no label or name is ordered before itself |
| StringOrder.LessTransitive | tool/CopyGroups.h:24 | the key order of the map is transitive |
| StringOrder.LessTotal | tool/CopyGroups.h:24 | any two different strings are ordered one way or the other, so iteration order is fixed |
| StringOrder.Sorted | tool/CopyGroups.h:14 | a `std::set<std::string>` yields each of its elements exactly once, in strictly ascending order |
| StringOrder.AscendingUnique | tool/CopyGroups.h:14 | two strictly ascending sequences with the same elements are equal |
| StringOrder.SortedCharacterized | tool/CopyGroups.h:14 | any strictly ascending listing of a set is the set's iteration order |
| StringOrder.OrderedPair | tool/CopyGroups.h:24 | two ordered strings taken from an ordered pair are that pair, in its order |
| Groups.DetermineGroupOf | tool/CopyGroups.cpp:21-33 | the label is always one of the two constants; it is `"c4_fields"` exactly when the type is a record and not a union, enum or pointer, so a union counts as a plain field |
| Groups.Lookup | tool/CopyGroups.cpp:13 | definition: `groups[groupName]`, the stored set or the empty set a missing key is default-constructed with |
| Groups.Insert | tool/CopyGroups.cpp:13 | definition: `groups[groupName].insert(name)`, the key created if missing and the name added to its set |
| Groups.Divide | tool/CopyGroups.cpp:8-15 | definition: the map after inserting every field's name under `determineGroupOf` of that field, in field order, starting from the given map |
| Groups.Partition | tool/CCopy.cpp:61-62 | definition: the map of a freshly constructed `CopyGroups` after one `divideBy` over the class's fields |
| Groups.DivideExact | tool/CopyGroups.cpp:11-14 | after inserting the fields, each label holds its old names plus the names of exactly the fields classified under it; a label exists only if it did before or some field was inserted under it |
| Groups.FieldInItsGroup | tool/CopyGroups.cpp:11-14 | every field's name is in the group its type selects |
| Groups.DivideAllNames | tool/CopyGroups.cpp:11-14 | the names under all labels afterwards are the old names plus all field names: nothing is lost, nothing is removed |
| Groups.DivideWellFormed | tool/CopyGroups.cpp:11-13 | afterwards every key is one of the two labels and holds a non-empty set, provided that held before |
| Groups.PartitionDisjoint | tool/CopyGroups.cpp:11-14 | with distinct field names, no name is in two groups |
| Groups.AtMostTwoLabels | tool/CopyGroups.cpp:5-6 | a map whose keys are labels has at most two entries |
| Groups.UnnamedFieldsInBothGroups | tool/CopyGroups.cpp:11-14 | two unnamed fields of different groups put the empty name into both groups, so the names of the groups need not be disjoint |
| Groups.PartitionSize | tool/CopyGroups.cpp:17-33 | a class has at most two groups, and two exactly when some field is `"c4_fields"` and some other field is `"default_group"` |
| Groups.SortedEntries | tool/CopyGroups.h:15-24 | `begin()` to `end()` visits each map entry once, with its stored group, in strictly ascending label order |
| Groups.SortedEntriesCover | tool/CopyGroups.h:20-24 | every key of the map is met during the walk, with the set stored under it |
| Groups.FieldInItsEntry | tool/CopyGroups.cpp:11-14 | walking the groups meets every field's name under the label its type selects |
| Groups.C4BeforeDefault | tool/CopyGroups.cpp:5-6 | `"c4_fields"` is ordered before `"default_group"` |
| Groups.TwoGroupsArePresent | tool/CopyGroups.cpp:17-19 | two groups means the keys are exactly the two labels |
| Groups.TwoKeysInOrder | tool/CopyGroups.h:15-24 | a map with two keys is walked smaller key first |
| Groups.TwoGroupsInLabelOrder | tool/CopyGroups.h:15-24 | with two groups, `"c4_fields"` is always visited before `"default_group"` |
| Groups.CopyGroups.constructor | tool/CopyGroups.h:24 | a new object has an empty map and satisfies the invariant |
| Groups.CopyGroups.DivideBy | tool/CopyGroups.cpp:8-15 | the loop leaves the map that inserting the fields in order gives, and keeps the invariant (only the two labels, no empty group) |
| Groups.CopyGroups.Entries | tool/CopyGroups.h:20-21 | definition: the map's entries from `begin()` to `end()`, which is `SortedEntries` of the stored map; a function reading the object, so it changes nothing |
| Groups.CopyGroups.Size | tool/CopyGroups.cpp:17-19 | the number of groups is at most two, and zero exactly when the map is empty |
| CCopy.SkipComment | tool/CCopy.cpp:66 | definition: `"//less than 2 copy groups, default copy constructor fits\n"`, the source's one literal spelt in three concatenated pieces |
| CCopy.Header | tool/CCopy.cpp:70 | definition: `"\npublic:\n" + className + "(const " + className + "& other) {\n"` |
| CCopy.ThreadOpen | tool/CCopy.cpp:76 | definition: `"std::thread " + label + "([&](){\n"`, the thread variable named after the group label |
| CCopy.AssignLine | tool/CCopy.cpp:80 | definition: `fieldName + " = other." + fieldName + ";\n"` |
| CCopy.ThreadBlock | tool/CCopy.cpp:76-83 | definition: the thread opening, one assignment line per name of the group in `std::set` order, then `"});\n\n"` |
| CCopy.JoinLine | tool/CCopy.cpp:85 | definition: `label + ".join()\n"`, without a `;` |
| CCopy.EntriesOf | tool/CCopy.cpp:61-73 | definition: the groups of a class's fields in the order `inject`'s loop visits them |
| CCopy.ConstructorText | tool/CCopy.cpp:70-90 | definition: the header, the thread blocks of all groups, the join lines of all groups in the same order, then `"}\n\n"` |
| CCopy.ConstructorFraming | tool/CCopy.cpp:70-90 | the constructor text starts with the header line, ends with `"}\n\n"`, and starts with a newline |
| CCopy.InjectText | tool/CCopy.cpp:64-90 | the text is the skip comment exactly when there are fewer than two groups; otherwise it starts with the header and ends with the closing brace |
| CCopy.AssignInThread | tool/CCopy.cpp:76-83 | every name of a group has its assignment line in that group's thread block |
| CCopy.ThreadInConstructor | tool/CCopy.cpp:70-90 | every group's thread block is part of the constructor text |
| CCopy.FieldCopiedInItsThread | tool/CCopy.cpp:73-86 | every field is copied inside the thread named after its own group, and that thread is in the inserted text |
| CCopy.SkipExactlyWhenOneGroup | tool/CCopy.cpp:64-68 | the skip comment is inserted exactly when all fields fall into one group (no fields included) |
| CCopy.ThreadPrecedesJoin | tool/CCopy.cpp:72-88 | every thread block comes before every join, so all threads start before any is joined |
| CCopy.JoinsAfterThreads | tool/CCopy.cpp:70-90 | the join lines start exactly where the last thread block ends: the constructor text up to that position is the header and the thread blocks, and the rest is the join lines and `"}\n\n"` |
| CCopy.GeneratedConstructorShape | tool/CCopy.cpp:70-90 | with two groups the text is the header, the `c4_fields` thread, the `default_group` thread, `c4_fields.join()`, `default_group.join()` (no `;`), then `"}\n\n"` |
| CCopy.Rewriter.InsertText | tool/CCopy.cpp:66-90 | an insertion appends its text after everything inserted before |
| CCopy.Injector.constructor | tool/CCopy.cpp:51-53 | the injector starts with its own rewriter, with nothing inserted yet |
| CCopy.Injector.Inject | tool/CCopy.cpp:55-91 | the rewriter's text grows by exactly `InjectText` of the class's name and fields |
| CCopy.Injector.InjectThreads | tool/CCopy.cpp:72-86 | the group loop appends the thread blocks in map order and collects one join line per group, in the same order |
| CCopy.Injector.InjectThread | tool/CCopy.cpp:74-83 | one pass appends the thread opening, one assignment per name in set order, and `"});\n\n"` |
| CCopy.Decide | tool/CCopy.cpp:133-147 | a constructor is generated exactly when there is no user copy constructor, the class is complete and the marker is a direct base; a user copy constructor short-circuits |
| CCopy.VisitText | tool/CCopy.cpp:133-147 | definition: what visiting one class inserts, `InjectText` of its name and fields when `Decide` gives `Generate` and nothing otherwise |
| CCopy.Visitor.constructor | tool/CCopy.cpp:130-131 | the visitor keeps the injector it is given |
| CCopy.Visitor.IsC4 | tool/CCopy.cpp:155-165 | true exactly when some direct base prints as `"class C4"` |
| CCopy.Visitor.VisitCXXRecordDecl | tool/CCopy.cpp:133-150 | always continues the traversal, and appends the injected text only for an eligible class |
| CCopy.Visitor.TraverseDecls | tool/CCopy.cpp:174-176 | visiting a translation unit appends the texts of its eligible classes, in order |
| CCopy.SkippedClassLeavesNoTrace | tool/CCopy.cpp:136-146 | an ineligible class changes nothing: the text equals the one without that class |
| CCopy.RFind | tool/CCopy.cpp:97-99 | `rfind` gives the last position of the character, or none when it is absent |
| CCopy.OutputName | tool/CCopy.cpp:97-101 | `"_out"` goes right before the last `.`, or at the end when there is none; the name grows by four |
| CCopy.OutputNameKeepsExtension | tool/CCopy.cpp:97-101 | the output's last `.` is the input's, four places later, and everything from it on is unchanged |

## Left out

- `readFileContent` and `main` (tool/CCopy.cpp:26-38, 191-201) are left out. They are file I/O and command-line handling.
- The file-writing part of `dump` (tool/CCopy.cpp:103-124) is left out: opening the stream, the two `#define` lines, copying the rewrite buffer, and the error message. This is I/O through LLVM.
- `FindExpensiveClassConsumer`, `FindExpensiveClassAction` and clang's `RecursiveASTVisitor` are clang front-end plumbing. A translation unit is modelled as the sequence of its classes, visited in order, in `Visitor.TraverseDecls`.
- The `llvm::outs()` progress messages are left out. They are diagnostics and never reach the rewritten file.
- Rewriter internals are left out: the source location, where the inserted text lands in the file, and the re-indentation that `indentNewLines = true` applies to inserted lines. The rewriter is foreign code, and the model keeps only the order and content of what is inserted.
- Threads are not modelled. The copy constructor is only text; the tool itself is single-threaded.
- A field's type is reduced to the four clang predicates the classifier asks about. A class's bases are reduced to their printed type names. Clang's type system is foreign code.
- `Injector.Inject` splits the body of `inject` into three methods: the outer loop over groups is `InjectThreads`, and one pass of it is `InjectThread`. The inserted text is the same.
- StringOrder.Less compares characters by code point, while `std::string` compares them as `unsigned char`. The two agree on the ASCII identifiers and labels that occur here.
- Groups.CopyGroups.Entries (`begin()`/`end()`) is a function reading the object, so walking the groups cannot change them. It carries no contract of its own; `SortedEntries` states what the walk yields.
- Groups.PartitionDisjoint assumes distinct field names. In C++ every unnamed field (an unnamed bit-field, an anonymous struct or union member) has the empty name, so `""` can sit in both groups, as `UnnamedFieldsInBothGroups` shows, and the tool then emits `" = other.;"` lines. The model keeps those names as they are and does not say what the compiler makes of that text.
