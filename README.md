# xmlb binding multiplicity and "Go to File" file-type order

This project models two small parts of the IntelliJ platform in Dafny and proves properties about them.

**`XmlbBinding`** (`xmlb_binding.dfy`) covers the base contract of an xmlb serialization binding. A binding moves one field of an object to and from JDOM nodes.
- A `Binding` is a datatype with two variants, `SingleNode` and `MultiNode`. The concrete binding's `deserializeUnsafe`, `isBoundTo` and, for a multi-node binding, its own list deserializer are function-valued fields. The dispatcher cannot look inside them.
- The node type, the context type and the value type are type parameters.
- `DeserializeList` is the static dispatcher. It returns `Ok(Some(v))` for a value, `Ok(None)` for Java's `null`, and `Err(DuplicateData)` for the `AssertionError`.
- `AddContent` appends a serialization result to an `Element`. `Element` is a class whose `children` sequence the method extends in place. The method is specified against the pure function `AppendFragment`. `Failed(WrongNode)` stands for the `IllegalArgumentException`.

**`GotoFile`** (`goto_file.dfy`) covers the order of file types in the "Go to File" filter.
- `FileType` is a record `(id, isUnknown, isBinary, name)`. Two records are the same file type exactly when they are equal, which models the reference test `o1 == o2`.
- `isUnknown` marks the registry's single UNKNOWN file type.
- `Compare` is `FileTypeComparator.compare`.
- `CompareIgnoreCase` is `String.compareToIgnoreCase` with ASCII case folding. It returns the difference of the first pair of folded characters that differ, or else the difference of the lengths.
- `GetAllFilterValues` copies the registered types into a fresh array and sorts it with an insertion sort over the comparator. The registered types are an input sequence.

The base `Binding.addContent` rejects a `null` serialization result with `IllegalArgumentException`, because `instanceof` fails for `null`. It does not treat `null` as "nothing to add". The model follows the code: `NotContent` covers `null` as well as any other object.

## Model

| member | source | states |
|---|---|---|
| `XmlbBinding.NewSingleNode` | platform/util/src/com/intellij/util/xmlb/Binding.java:32-46 | a binding built with the default isBoundTo returns the accessor it was given from getAccessor and is bound to no element |
| `XmlbBinding.NewMultiNode` | platform/util/src/com/intellij/util/xmlb/Binding.java:32-46 | the same for a multi-node binding, which keeps both the single-node and the list deserializer it was given |
| `XmlbBinding.Init` | platform/util/src/com/intellij/util/xmlb/Binding.java:48-49 | the base init changes nothing: accessor, kind, deserializeUnsafe, isBoundTo and the dispatcher's result on every context and node list are as before |
| `XmlbBinding.DeserializeList` | platform/util/src/com/intellij/util/xmlb/Binding.java:51-67 | a multi-node binding's result is its own list deserialization for any number of nodes, zero included; any other binding yields null without fault exactly for no node, deserializeUnsafe of the node for one node, and fails with DuplicateData, returning no value, exactly for two or more |
| `XmlbBinding.AppendFragment` | platform/util/src/com/intellij/util/xmlb/Binding.java:71-83 | a Content adds exactly one child at the end; a List adds its items at the end, in order; earlier children are kept; any other object is the WrongNode fault |
| `XmlbBinding.ListIsItemByItem` | platform/util/src/com/intellij/util/xmlb/Binding.java:76-78 | appending a list gives the same children as appending its items one at a time, in order |
| `XmlbBinding.AddContent` | platform/util/src/com/intellij/util/xmlb/Binding.java:71-83 | the target's new children are AppendFragment of its old ones; it fails exactly for a node that is neither Content nor List, and then the children are unchanged; only the children may change |
| `GotoFile.Fold` | platform/lang-impl/src/com/intellij/ide/actions/GotoFileAction.java:143 | a folded character is never an upper-case ASCII letter, and it is a lower-case letter exactly when the input was an ASCII letter of either case |
| `GotoFile.FoldSame` | platform/lang-impl/src/com/intellij/ide/actions/GotoFileAction.java:143 | two characters fold alike exactly when they are equal or are one ASCII letter in its two cases |
| `GotoFile.FoldAll` | platform/lang-impl/src/com/intellij/ide/actions/GotoFileAction.java:143 | case folding keeps the length and folds each character |
| `GotoFile.CompareIgnoreCaseAntisymmetric` | platform/lang-impl/src/com/intellij/ide/actions/GotoFileAction.java:143 | swapping the two names negates the case-insensitive comparison |
| `GotoFile.CompareIgnoreCaseZeroIff` | platform/lang-impl/src/com/intellij/ide/actions/GotoFileAction.java:143 | the case-insensitive comparison is zero exactly when the folded names are equal |
| `GotoFile.CompareIgnoreCaseTransitive` | platform/lang-impl/src/com/intellij/ide/actions/GotoFileAction.java:143 | "not greater" under the case-insensitive comparison is transitive |
| `GotoFile.CompareReflexive` | platform/lang-impl/src/com/intellij/ide/actions/GotoFileAction.java:128-130 | a file type compares equal to itself |
| `GotoFile.UnknownIsGreatest` | platform/lang-impl/src/com/intellij/ide/actions/GotoFileAction.java:131-136 | UNKNOWN compares greater than every known file type, and every known file type compares less than UNKNOWN |
| `GotoFile.TextBeforeBinary` | platform/lang-impl/src/com/intellij/ide/actions/GotoFileAction.java:137-142 | among known file types, text is strictly less than binary whatever the names |
| `GotoFile.SameKindByName` | platform/lang-impl/src/com/intellij/ide/actions/GotoFileAction.java:143 | two distinct known file types of the same kind compare as their names, ignoring case |
| `GotoFile.CompareAntisymmetric` | platform/lang-impl/src/com/intellij/ide/actions/GotoFileAction.java:127-144 | with the UNKNOWN file type a single object, compare(a, b) == -compare(b, a) |
| `GotoFile.CompareZeroIff` | platform/lang-impl/src/com/intellij/ide/actions/GotoFileAction.java:127-144 | two file types compare equal exactly when they are the same file type, or are known, of the same kind and have names equal ignoring case |
| `GotoFile.CompareTransitive` | platform/lang-impl/src/com/intellij/ide/actions/GotoFileAction.java:127-144 | with the UNKNOWN file type a single object, "not greater" is transitive |
| `GotoFile.AdjacentSortedIsSorted` | platform/lang-impl/src/com/intellij/ide/actions/GotoFileAction.java:97 | a list whose neighbours are in order is sorted under the comparator |
| `GotoFile.UnknownLast` | platform/lang-impl/src/com/intellij/ide/actions/GotoFileAction.java:113 | in a sorted list, only UNKNOWN itself may follow UNKNOWN |
| `GotoFile.InsertLast` | platform/lang-impl/src/com/intellij/ide/actions/GotoFileAction.java:97 | one insertion step extends the ordered prefix by one element, permutes only a[..i+1] and leaves a[i+1..] unchanged |
| `GotoFile.SwapDown` | platform/lang-impl/src/com/intellij/ide/actions/GotoFileAction.java:97 | the new array is the old one with a[j-1] and a[j] exchanged, so the elements of a[..i+1] are kept and the insertion state moves one place left |
| `GotoFile.SwapStep` | platform/lang-impl/src/com/intellij/ide/actions/GotoFileAction.java:97 | swapping the moved file type with a greater left neighbour keeps every other neighbouring pair in order |
| `GotoFile.GetAllFilterValues` | platform/lang-impl/src/com/intellij/ide/actions/GotoFileAction.java:94-98 | the result is a permutation of the registered file types, sorted non-decreasingly by the comparator, with UNKNOWN only at the end |

## Left out

- `Binding.serialize` is abstract in the base class and implemented only by concrete bindings. It is not modelled. Its result shapes enter the model as the `Serialized` datatype.
- Concrete `Binding` subclasses, `MultiNodeBinding` implementations, `MutableAccessor` reflection, `Serializer` lookup and `SerializationFilter` are collaborators. They appear only as function-valued fields, as the abstract `Accessor` record, or as type parameters of `Init`. The round trip of serialize and deserializeUnsafe, and filter suppression, belong to them.
- Overrides of `isBoundTo` appear only as the binding's `isBoundTo` field. The constructors set the default, which is false for every element.
- `XmlbBinding.DeserializeList`: the model keeps a `null` that `deserializeUnsafe` returns (some value of the abstract type `V`, so `Ok(Some(v))`) apart from the dispatcher's own `null` for no node (`Ok(None)`). In Java both are the same `null`, so "null exactly for no node" holds only of the model's `Ok(None)`.
- JDOM internals are left out: parent detachment, the exceptions JDOM throws for content that already has a parent, and non-Content items inside a List. A list is modelled as a sequence of Content.
- The static `Logger`, the error messages, and the one-time, thread-safe running of `init` are left out. The model has no concurrency.
- `GotoFile.CompareIgnoreCase`: only ASCII letters are case-folded. Full Unicode case folding in `compareToIgnoreCase` is not modelled. Strings are compared by Unicode scalar value, not by UTF-16 code unit. So a name with a supplementary character (above U+FFFF) against one with a character in U+E000–U+FFFF can get the opposite sign from Java, and lengths count scalar values rather than code units.
- `GotoFile.GetAllFilterValues`: `Collections.sort` is a stable merge sort. The model proves order and permutation but not stability. It requires that at most one distinct registered type is UNKNOWN, which the registry's single UNKNOWN object guarantees.
- `FileTypeManager.getRegisteredFileTypes()` is a foreign registry. Its result is the input sequence.
- `gotoActionPerformed` is left out because it is UI glue: a popup, usage statistics, threading and editor navigation. The `GotoFileFilter` constructor, `textForFilterValue` and `iconForFilterValue` are left out because they are thin getters over Swing and `FileType`.
