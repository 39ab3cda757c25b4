# IBOutletScanner in Dafny

IBOutletScanner reads Xcode storyboard and xib documents and warns about
views that are declared but never wired to an outlet. This project models
its core as pure Dafny functions and proves what the code promises about it.

- `Scanner` (`scanner.dfy`) models `src/IBOutletScanner.swift`. A parsed
  document is a sequence of `Node`s. An `Element` has a tag name, an
  attribute map and children. An `Opaque` node is a child with no element
  representation. The pre-order walk threads a `Collected` value
  (connections and views) through the tree, where the Swift class mutates
  two instance arrays. The configured custom view class names are a
  parameter, where the Swift class reads a global. The module also holds
  the fixed rule tables, the ignore filter, the stable filter that yields
  disconnected views, and the path printed for each file.
- `CommandLineOptions` (`options.dfy`) models `src/Options.swift`. The
  argument loop is a left fold over the argument list. The `SRCROOT`
  environment value is an `Option<string>` input. A reference reading
  assigns each argument a role (program name, flag, class-name list, root
  path) and characterises the loop's result.
- `Text` (`text.dfy`) models the Foundation string operations the code
  relies on: `components(separatedBy: ",")`,
  `replacingOccurrences(of:with: "")` and stripping leading `/`.
- `Wrappers` and `Sequences` hold `Option` and the subsequence relation.

Line 102 of `src/IBOutletScanner.swift` tests only that an `id` attribute
is present, so an element whose `id` is empty still yields a view
(`Scanner.EmptyIdIsEnough`).

## Model

| member | source | states |
|---|---|---|
| `Scanner.ShouldIgnoreByScanning` | src/IBOutletScanner.swift:116-129 | The nested filter loop returns true iff some filter key is an attribute whose text is one of that key's values, whatever order the dictionary yields its entries in |
| `Scanner.FixedIgnoreFilter` | src/IBOutletScanner.swift:41-42 | With the fixed table, an element is ignored iff its `systemItem` is `flexibleSpace` or `fixedSpace` |
| `Scanner.OutletConnections` | src/IBOutletScanner.swift:93-97 | An element yields at most one connection. It yields one iff its tag is `outlet` and it has a `destination`, and that connection's destination is the attribute text. A missing destination is not an error |
| `Scanner.ViewsOf` | src/IBOutletScanner.swift:99-110 | An element yields at most one view. It yields one iff it is allow-listed, not ignored, has an `id`, and (for `view` only) its custom class, defaulting to "", is configured. The record holds the id, the tag and that custom class |
| `Scanner.Walk` | src/IBOutletScanner.swift:88-114 | The accumulated connections and views only grow: the incoming collections are prefixes of the result |
| `Scanner.WalkClassifiesPreOrder` | src/IBOutletScanner.swift:88-114 | The accumulating walk appends exactly the classification of every element in pre-order to its input collections. Each element is classified once |
| `Scanner.ScanClassifiesPreOrder` | src/IBOutletScanner.swift:31-32 | A scan from fresh empty collections yields exactly the classification of the document's elements in pre-order |
| `Scanner.PreOrderListsReachedElements` | src/IBOutletScanner.swift:89-90 | The pre-order lists exactly the elements reachable through element nodes. Nothing below a non-element node is listed |
| `Scanner.ParentBeforeDescendants` | src/IBOutletScanner.swift:93-112 | An element's own contribution precedes its descendants', which precede its later siblings' |
| `Scanner.OpaqueSubtreeSkipped` | src/IBOutletScanner.swift:90 | A node without an element representation contributes nothing, and neither do its children |
| `Scanner.ScanConnections` | src/IBOutletScanner.swift:93-97 | A connection to `d` is collected iff some reachable `outlet` element has `destination` equal to `d` |
| `Scanner.ScanViews` | src/IBOutletScanner.swift:99-110 | A view is collected iff some reachable element is a candidate whose record is that view |
| `Scanner.ConnectionsTo` | src/IBOutletScanner.swift:76-78 | The inner filter keeps exactly the connections whose destination equals the identifier |
| `Scanner.CountBelowOneIffUnconnected` | src/IBOutletScanner.swift:76-78 | The filter test `count < 1` holds iff no connection points to the view |
| `Scanner.DisconnectedViews` | src/IBOutletScanner.swift:74-80 | The report is a subsequence of the collected views: it invents nothing and keeps their order |
| `Scanner.DisconnectedCounts` | src/IBOutletScanner.swift:74-80 | Each view occurs in the report as often as it was collected if it is unconnected, and not at all otherwise |
| `Scanner.DisconnectedMembership` | src/IBOutletScanner.swift:75-78 | A view is reported iff it was collected and no connection's destination equals its identifier |
| `Scanner.DocumentReport` | src/IBOutletScanner.swift:74-112 | End to end: a view is reported for a document iff a reachable candidate element has that record and no reachable outlet names its id |
| `Scanner.WiredButtonIsNotReported` | src/IBOutletScanner.swift:93-107 | The document `<button id="b1"/>` followed by `<outlet destination="b1"/>` reports nothing |
| `Scanner.UnwiredLabelIsReported` | src/IBOutletScanner.swift:99-107 | The document `<label id="l1"/>` alone reports `View("l1", "label", "")`: id, tag and an empty custom class |
| `Scanner.SpacerIsIgnored` | src/IBOutletScanner.swift:101 | The document `<tabBarItem id="t1" systemItem="fixedSpace"/>` collects no view and reports nothing |
| `Scanner.GenericViewNeedsConfiguredClass` | src/IBOutletScanner.swift:103-107 | `<view id="v1" customClass="Custom"/>` is reported as `View("v1", "view", "Custom")` when `Custom` is configured and collects nothing when no class is configured; `<view id="v2"/>` collects nothing when no class is configured |
| `Scanner.EmptyIdIsEnough` | src/IBOutletScanner.swift:102 | An element with an empty `id` still yields a view |
| `Scanner.EmptyClassNameAdmitsBareViews` | src/IBOutletScanner.swift:103-106 | A class-name value that is empty or ends in a comma adds the empty name, which a `view` without `customClass` is looked up under, so every such `view` with an `id` that is not ignored becomes a candidate |
| `Scanner.RelativePath` | src/IBOutletScanner.swift:66-72 | The printed path never starts with `/`. It is what remains of the root-free path after only leading `/` characters are dropped |
| `Scanner.RelativePathUnchanged` | src/IBOutletScanner.swift:66-72 | A file path that contains no occurrence of a non-empty root path and does not start with `/` is returned unchanged |
| `Scanner.RelativePathErasesEveryRootOccurrence` | src/IBOutletScanner.swift:67 | The replacement keeps exactly the non-erased characters, and every occurrence of the root path in the input is erased. New occurrences can form across a removed one (`Text.RemovalCanFormNewOccurrence`) |
| `Scanner.RelativePathDropsInteriorRoot` | src/IBOutletScanner.swift:67 | As written, root `/src` and file `/src/srcViews/Main.xib` give `Views/Main.xib` |
| `Scanner.RelativePathUnderRoot` | src/IBOutletScanner.swift:66-72 | Corrected path: never starts with `/`. It is a suffix of the file path, and only the root prefix and `/` characters precede it |
| `Scanner.RelativePathUnderRootReassembles` | src/IBOutletScanner.swift:66-72 | Under the root, the file path is the root, then some `/` characters, then the corrected relative path |
| `Scanner.RelativePathAgreesForSingleOccurrence` | src/IBOutletScanner.swift:67 | When the root path occurs in the file path only as its prefix, the as-written and corrected paths agree |
| `Scanner.RelativePathUnderRootKeepsInteriorRoot` | src/IBOutletScanner.swift:67 | Corrected, the finding's example gives `srcViews/Main.xib` |
| `Text.StripLeading` | src/IBOutletScanner.swift:68-70 | The result is a suffix of the input and does not start with the character. Everything stripped before it is that character |
| `Text.ErasedPositions` | src/IBOutletScanner.swift:67 | One flag per character. Every position where the pattern occurs in the input is erased |
| `Text.ErasedLieInOccurrences` | src/IBOutletScanner.swift:67 | Conversely, every erased character lies inside an occurrence of the pattern, so removal deletes nothing but occurrences |
| `Text.RemoveOccurrencesKeepsUnerased` | src/IBOutletScanner.swift:67 | Removing occurrences leaves exactly the characters not erased, in order |
| `Text.RemoveAbsent` | src/IBOutletScanner.swift:67 | Without an occurrence of the pattern, removal changes nothing |
| `Text.RemoveFirstOccurrence` | src/IBOutletScanner.swift:67 | The leftmost occurrence is the one removed: the text before it is kept and the scan resumes right after it. With `Text.RemoveAbsent` this fixes the result, including which of overlapping occurrences goes |
| `Text.OverlapRemovesLeftmost` | src/IBOutletScanner.swift:67 | Removing `aa` from `aaa` leaves `a` |
| `Text.RemovalCanFormNewOccurrence` | src/IBOutletScanner.swift:67 | Removing `ab` from `aabb` yields `ab`: one scan can leave a newly formed occurrence |
| `Text.Split` | src/Options.swift:55 | A split yields at least one piece, and no piece contains the separator |
| `Text.JoinSplit` | src/Options.swift:55 | Joining a value's pieces with `,` gives the value back, so `"a,,b"` gives `["a","","b"]` and `""` gives `[""]` |
| `Text.SplitJoin` | src/Options.swift:55 | Splitting the join of separator-free pieces gives the pieces back |
| `Text.SplitTrailingSeparator` | src/Options.swift:55 | A value ending in the separator splits into at least two pieces, the last of them empty |
| `CommandLineOptions.Parse` | src/Options.swift:45-46 | With no argument after the program name, the root path is the environment default or "", and there are no class names |
| `CommandLineOptions.CreateFromCommandLineArguments` | src/Options.swift:44-69 | The enumerated loop, index 0 skipped, computes the options the fold defines |
| `CommandLineOptions.Roles` | src/Options.swift:48-66 | The left-to-right role assignment obeys the rules. Index 0 is the program name. The argument after a flag is a class-name list whatever its text. Otherwise only the two exact flag strings are flags, and the rest are root paths |
| `CommandLineOptions.WellAssignedIsUnique` | src/Options.swift:48-66 | The role rules admit exactly one assignment |
| `CommandLineOptions.RunFollowsRoles` | src/Options.swift:45-68 | The root path is the last root-path argument, else the default. The names are the comma-split class-name lists, concatenated in order. A value is pending iff the last argument is a flag |
| `CommandLineOptions.StepFollowsRole` | src/Options.swift:54-65 | One pass of the loop body appends the argument to the class-name lists or root paths exactly as its role says, and leaves a value pending iff the argument is a flag |
| `CommandLineOptions.ParseFollowsRoles` | src/Options.swift:45-68 | The parsed options as the roles determine them |
| `CommandLineOptions.FlagIsNeverRootPath` | src/Options.swift:60-65 | A flag string is never the resulting root path unless it was the default |
| `CommandLineOptions.ProgramNameIgnored` | src/Options.swift:50-52 | Replacing the argument at index 0 never changes the result |
| `CommandLineOptions.ValueAfterFlagIsConsumed` | src/Options.swift:54-58 | The argument after a flag is consumed even if it is a flag or empty. Its pieces are appended, and the root path is kept |
| `CommandLineOptions.TrailingFlagContributesNothing` | src/Options.swift:60-68 | A flag as the last argument changes nothing |

## Left out

- `IBOutletScanner.run()` is left out. It prints warning and error lines, returns exit codes 0 and 1, and stops at the first error. That is console output and process control.
- `scan(ibFile:)` is left out. Reading the file and parsing XML with SWXMLHash are I/O and a third-party parser. The model takes the parsed tree as input.
- `src/FileScanner.swift` is left out. It enumerates directories and tests file extensions, which is filesystem access.
- `String(describing:)` of a view is output formatting, and the `IBView` type is not part of this model. A view is the record of its identifier, tag and custom class.
- `IBOutletConnection.connectsToObject(withIdentifier:)` is not part of this model. It is modelled as exact equality of the destination and the identifier.
- The environment and `CommandLine.arguments` are passed in as an `Option<string>` and a `seq<string>`.
- The static `options` and the lazy instance arrays are replaced by parameters and returned values. Each scan starts from empty collections.
- Strings are sequences of characters compared exactly. Swift compares strings up to canonical equivalence: `==`, `Array.contains` and `Dictionary` lookups by key do. That covers the tag tests at src/IBOutletScanner.swift:93, 101 and 106, the ignore test at line 122, the flag test at src/Options.swift:60 and the `allAttributes[...]` lookups at src/IBOutletScanner.swift:94, 102, 103 and 120. Foundation's search in `replacingOccurrences` behaves the same way. So Swift collects `customClass="Café"` with a precomposed `é` when the configured name spells it as `e` plus a combining accent, and the model does not. Grapheme clusters are not modelled either.
- `replacingOccurrences(of: "", with: "")` is modelled as the identity, since Foundation finds no empty match. A run with an empty root path stops earlier in any case, at the file enumerator's empty-path check.
- `Text.RemoveOccurrences`: its own contract says only that the result is no longer than the input. Its meaning is stated by lemmas. `Text.RemoveFirstOccurrence` and `Text.RemoveAbsent` fix the result: the leftmost occurrence goes and the scan resumes after it. `Text.RemoveOccurrencesKeepsUnerased`, `Text.ErasedPositions` and `Text.ErasedLieInOccurrences` describe it as the characters left after erasing every occurrence and nothing else. Those three alone do not say which of overlapping occurrences is erased.

## Findings

| source | as written | input that shows it | evidently intended | confidence | as-written member | corrected member |
|---|---|---|---|---|---|---|
| src/IBOutletScanner.swift:67 | Deletes every occurrence of the root path anywhere in the file path | Root `/src`, file `/src/srcViews/Main.xib` gives `Views/Main.xib` | Remove the root only as a prefix, giving `srcViews/Main.xib` | medium, not executed | `Scanner.RelativePathDropsInteriorRoot` | `Scanner.RelativePathUnderRoot` |
