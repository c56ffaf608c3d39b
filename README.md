# Tuple: the in-memory row of a small relational engine

This project models `Tuple`, the engine's in-memory row. A tuple has:

- a fixed-length array of slots, each either unset (Java `null`) or holding a `Field` value;
- the schema (`TupleDesc`) it is bound to;
- an optional `RecordId` saying where the row is stored.

The tuple is created from a schema with one unset slot per schema item. Slots are read and written by position. The tuple renders as a tab-separated, newline-terminated line. The `fields()` method returns an iterator over the live array. The schema and the record id can be replaced at any time.

Files:

- `Wrappers.dfy`: `Option`, in which `None` stands for a Java `null`.
- `TupleText.dfy`: the text form as pure functions.
  - `Render` is the reference definition: texts joined by tabs, plus one newline.
  - `Emit` is what the `toString` loop has built after `n` rounds.
  - `EmitRender` connects the two.
  - `Split`/`Parse` read a line back into its columns. They decode the line format documented at Tuple.java:86-91. The lemmas prove they undo `Line` when no column holds a tab.
- `Tuple.dfy`: class `Tuple` (the fields `recordId`, `tupleDesc`, `fieldArr`), class `FieldIterator` (the anonymous iterator of `fields()`), and three caller methods that state the iteration properties.

Collaborators:

- `Field`, `RecordId` and a schema item `TDItem` are abstract types.
- `TupleDesc` is a value holding its sequence of items. The tuple only uses the item count.
- `Field.toString()` is code outside this model. It becomes the parameter `str: Field -> string` of `ToString`.

At the edges the model follows the code:

- A tuple with no slots renders as the empty string.
- `fields()` returns null (`None`) for a tuple with no slots.
- `resetTupleDesc` does not check the new schema against the array length. The array keeps the old schema's length.
- The constructor's comment asks for a schema with at least one field. The code does not check this, so the model has no such precondition.

## Model

| member | source | states |
|---|---|---|
| `Tuples.Tuple.constructor` | src/java/simpledb/Tuple.java:20-36 | the array gets one slot per schema item; every slot reads as unset; there is no record id; the schema is the given one |
| `Tuples.Tuple.SetRecordId` | src/java/simpledb/Tuple.java:45-61 | `GetRecordId` then returns the id just set (possibly none); schema and slots are untouched |
| `Tuples.Tuple.SetField` | src/java/simpledb/Tuple.java:63-83 | for a valid index, `GetField(i)` then returns the written value; every other slot, the array length, the schema and the record id stay as they were |
| `Tuples.Tuple.ResetTupleDesc` | src/java/simpledb/Tuple.java:129-136 | only the schema changes; the record id and all slots stay, and the array is not resized |
| `Tuples.Tuple.ToString` | src/java/simpledb/Tuple.java:85-104 | on a tuple whose slots are all set, the loop's result is the canonical text form `Render` of the slot values |
| `Tuples.Tuple.Fields` | src/java/simpledb/Tuple.java:110-127 | no iterator exactly when the array is empty; otherwise a fresh iterator over this tuple at index 0, so each traversal starts anew |
| `Tuples.FieldIterator.constructor` | src/java/simpledb/Tuple.java:113-114 | the iterator starts at index 0 over the given tuple |
| `Tuples.FieldIterator.HasNext` | src/java/simpledb/Tuple.java:116-118 | true exactly when the index is below the array length |
| `Tuples.FieldIterator.Next` | src/java/simpledb/Tuple.java:120-124 | returns the slot at the current index as it is at the time of the call, and advances the index by one without passing the end |
| `Tuples.Traverse` | src/java/simpledb/Tuple.java:110-124 | draining a fresh iterator with `HasNext`/`Next` yields exactly the array's slots in ascending order; an empty tuple yields no iterator |
| `Tuples.SeesLaterWrite` | src/java/simpledb/Tuple.java:71-73 | the iterator reads the live array: for any iterator over the tuple and any slot `j` it has not yet passed, a write to `j` is what `Next` returns when the iterator reaches `j` |
| `Tuples.Restart` | src/java/simpledb/Tuple.java:110-114 | two traversals with no write between them yield the same slots |
| `TupleText.Line` | src/java/simpledb/Tuple.java:86-91 | a line is empty exactly when there are no columns; otherwise it ends in one newline preceded by the tab-joined columns |
| `TupleText.JoinSnoc` | src/java/simpledb/Tuple.java:99-101 | appending a column to a non-empty join adds exactly one tab and that column |
| `TupleText.EmitPrefix` | src/java/simpledb/Tuple.java:96-102 | after `n` rounds the accumulator holds the first `n` field texts joined by tabs, then a tab, or the newline once the last slot is written |
| `TupleText.EmitRender` | src/java/simpledb/Tuple.java:93-104 | the completed loop's accumulator equals `Render`, and for no slots both are `""` |
| `TupleText.RenderSingle` | src/java/simpledb/Tuple.java:97-98 | the last field is followed by a single newline and no tab |
| `TupleText.RenderCons` | src/java/simpledb/Tuple.java:99-101 | every field before the last is followed by exactly one tab |
| `TupleText.RenderThree` | src/java/simpledb/Tuple.java:86-91 | fields `a`, `b`, `c` render as `a\tb\tc\n` |
| `TupleText.Split` | src/java/simpledb/Tuple.java:89-91 | decoder for the documented line format, not code of the source: cutting a line at the column separator gives at least one column |
| `TupleText.JoinSplit` | src/java/simpledb/Tuple.java:89-91 | decoder for the documented line format, not code of the source: joining the pieces of a split at the same separator gives back the original text |
| `TupleText.SplitPlain` | src/java/simpledb/Tuple.java:89-91 | decoder for the documented line format, not code of the source: a text without the separator is a single column |
| `TupleText.SplitAfter` | src/java/simpledb/Tuple.java:89-91 | decoder for the documented line format, not code of the source: a separator-free column followed by the separator is split off as the first column |
| `TupleText.SplitJoin` | src/java/simpledb/Tuple.java:89-91 | decoder for the documented line format, not code of the source: joining separator-free columns and splitting again gives them back |
| `TupleText.ParseLine` | src/java/simpledb/Tuple.java:89-91 | decoder for the documented line format, not code of the source: parsing a line made of tab-free columns recovers exactly those columns |
| `TupleText.LineParse` | src/java/simpledb/Tuple.java:89-91 | decoder for the documented line format, not code of the source: every line that parses is the line of the columns it parses to |
| `TupleText.ParseRender` | src/java/simpledb/Tuple.java:86-104 | when no field text contains a tab, the field texts of a tuple can be read back from its text form |

The getters `GetTupleDesc`, `GetRecordId` and `GetField` (src/java/simpledb/Tuple.java:41-51, 81-83) are pure reads, written as functions. They have no contracts of their own. Their behaviour is fixed by the contracts of the constructor and the setters above, which are stated in terms of them.

## Left out

- `Serializable` and `serialVersionUID`: Java serialization plumbing with no logic.
- The internals of `TupleDesc`, `Field` and `RecordId`: these classes are not part of this model. The tuple uses only a schema's item count and a field's text.
- `Field.toString()`: the field's text is a parameter of `ToString`. No property depends on what that text is, except that `ParseRender` assumes it holds no tab.
- `Tuples.Tuple.ToString`: a `NullPointerException` on an unset slot is not modelled. The method instead requires every slot to be set.
- `Tuples.Tuple.SetField`: `ArrayIndexOutOfBoundsException` for a bad index is not modelled. The index must be valid. The same holds for `GetField`.
- `Tuples.FieldIterator.Next`: calling `next()` past the end throws in Java. Here it is a precondition that `HasNext` holds.
- A null schema: `new Tuple(null)` throws a `NullPointerException` at Tuple.java:34, and `resetTupleDesc(null)` is accepted, after which `getTupleDesc()` returns null. `TupleDesc` is a value here and cannot be null, so the model expresses neither case.
- Object identity of the schema: `TupleDesc` is compared by value. A schema is immutable, so this loses nothing the tuple observes.
- Concurrency: the code has none.
