# gogtd archive reconciliation, modelled in Dafny

gogtd keeps a "getting things done" task list as an outline file (`next_actions.otl`)
and an archive outline (`archive.otl`). Its `archive` command walks the top-level
elements of the active list. Under every top-level heading it removes the checked
checkboxes. It stamps each one with two metadata children, `"Archived"` and a tab
followed by the date. It then files them under every heading of the archive with
exactly the same value, or under a new heading appended to the archive when there
is none.

The model has four modules:

- `Outline` (outline.dfy): the outline element (`Element`: kind, value, checked flag,
  children) and the two govotl calls the pass uses, `NewElement` (NewVOTLElement)
  and `AddChild`.
- `Archive` (archive.dfy): the specification of one heading's step. `Keep` and
  `Moved` split the children, `Stamp`/`Unstamp` add and remove the metadata, and
  `File` does the find-or-append on the archive. Lemmas state what each guarantees.
- `Pass` (pass.dfy): the specification of the whole pass. `CleanDoc` gives the
  active document afterwards and `ArchiveDoc` the archive afterwards. Lemmas cover
  the guarantees the pass gives, idempotence among them. `PassExamples` works
  through two examples of the pass.
- `Gogtd` (gogtd.dfy): the command's code as imperative methods with the source's
  loops: indexed write-back into the active document, `keep`/`move` grown by
  appending, a `found` flag over the archive with no early exit, and an append of
  the new heading. Each method is proved equal to the specification function.

Documents are Go slices local to `archiver`, so they are modelled as values
(`seq<Element>`). The methods return the updated pair.

Two facts about the code shape the model:

- The archive search loop at cmd/gogtd/main.go:100-108 has no `break`. When the
  archive holds several headings with the same value, every one of them receives
  the moved items (`FileShape`).
- The code only tests an element's type against Heading and Checkbox
  (cmd/gogtd/main.go:80,85), so every other element type is `Other`.

## Model

| member | source | states |
|---|---|---|
| Gogtd.ArchiveFiles | cmd/gogtd/main.go:44-53 | The input file defaults to `next_actions.otl` and the archive file to `archive.otl`; the first and second arguments override them when present, and further arguments are ignored |
| Gogtd.SplitChildren | cmd/gogtd/main.go:81-95 | The loop over a heading's children builds exactly `Keep` (the children that are not checked checkboxes) and `Moved` (the checked checkboxes, each stamped), in order |
| Gogtd.FileUnder | cmd/gogtd/main.go:97-114 | The search over the archive, with its `found` flag and no early exit, produces exactly `File`: every matching heading gets the moved items, and a new heading is appended when none matched |
| Gogtd.ArchivePass | cmd/gogtd/main.go:78-119 | The whole loop over the active document produces exactly `CleanDoc` for the active document and `ArchiveDoc` for the archive |
| Archive.StampRoundTrip | cmd/gogtd/main.go:86-90 | A moved item keeps its type, value and flag; its children become its old children followed by `"Archived"` and then a tab and the date; removing those two gives the item back |
| Archive.SplitAppend | cmd/gogtd/main.go:84-95 | Both the kept and the moved sequences distribute over concatenation, so each keeps the original relative order of its children |
| Archive.SplitSingle | cmd/gogtd/main.go:84-95 | A single child goes to the moved side, stamped, exactly when it is a checked checkbox, and to the kept side otherwise |
| Archive.SplitSizes | cmd/gogtd/main.go:84-94 | Every child goes to exactly one side: the kept and moved counts add up to the number of children |
| Archive.KeepMembers | cmd/gogtd/main.go:84-94 | An element is kept if and only if it is a child that is not a checked checkbox |
| Archive.MovedMembers | cmd/gogtd/main.go:84-90 | Every moved element is a checked checkbox child with the metadata stamped on it, and every checked checkbox child appears stamped among the moved ones |
| Archive.KeepSettled | cmd/gogtd/main.go:84-95 | The kept children hold nothing more to move, and splitting them again keeps all of them |
| Archive.FileShape | cmd/gogtd/main.go:99-114 | Matching means Heading type and exact value equality. Every matching archive heading, not only the first, gets the moved items after its children and stays at its index. Every other element is unchanged. Exactly one new heading with the value and the moved items is appended at the end when nothing matched, even when there is nothing to move |
| Archive.FileFinds | cmd/gogtd/main.go:99-114 | After filing, the archive has a heading with the value that holds every moved item |
| Archive.FileNothing | cmd/gogtd/main.go:99-108 | Filing no items under a value the archive already has a heading for leaves the archive unchanged |
| Archive.FileExtends | cmd/gogtd/main.go:100-113 | Filing never shrinks or reorders the archive. Elements keep type, value and flag and only gain children after their old ones. Non-headings are untouched. Anything appended is a heading with the filed value |
| Archive.FileKeepsUnique | cmd/gogtd/main.go:99-114 | Filing into an archive without duplicate heading values creates none |
| Pass.ActiveResult | cmd/gogtd/main.go:78-117 | The active document keeps its length and positions. Non-heading top-level elements are unchanged. Each heading keeps type, value and flag. Its children become exactly its children that are not checked checkboxes, in order |
| Pass.ArchiveGrows | cmd/gogtd/main.go:78-119 | Over the whole pass the archive only grows. Nothing is removed or reordered, non-headings are untouched, and every appended element is a heading whose value is the value of some heading of the active document |
| Pass.ArchiveUntouched | cmd/gogtd/main.go:99-108 | An archive element whose value matches no active heading is left exactly as it was |
| Pass.ExistingGainsExactly | cmd/gogtd/main.go:99-108 | What an element already in the archive holds after the pass. A heading has its old children followed by everything moved out of the active headings with its value, in the order the pass visits them, and nothing else. Any other element is unchanged |
| Pass.AppendedExactly | cmd/gogtd/main.go:110-114 | What a heading the pass appends to the archive holds. It is an unchecked heading whose children are exactly everything moved out of the active headings with its value, in order, and nothing else |
| Pass.EveryHeadingFiled | cmd/gogtd/main.go:78-114 | After the pass, every top-level heading of the active document has a heading with the same value in the archive |
| Pass.MovedItemsFiled | cmd/gogtd/main.go:78-114 | Every checked checkbox directly under an active heading ends up, stamped, among the children of an archive heading with that heading's value |
| Pass.UniqueHeadingsKept | cmd/gogtd/main.go:78-114 | An archive without duplicate heading values keeps that property, even when several active headings share a value: the later ones find the heading the first one appended |
| Pass.NoNewDuplicates | cmd/gogtd/main.go:99-114 | For any archive, including one that already holds duplicate headings, no heading the pass appends shares its value with any other heading of the result: a heading is appended only when none with its value exists (`!found`), and later active headings with that value find it |
| Pass.ArchiveSettled | cmd/gogtd/main.go:99-114 | When the archive already has a heading for every active heading and no heading has anything to move, the pass leaves the archive unchanged |
| Pass.PassIdempotent | cmd/gogtd/main.go:78-119 | Running the pass again on its own output with the same date changes neither the active document nor the archive |
| PassExamples.FirstArchive | cmd/gogtd/main.go:78-119 | Example, for any date: a "Work" heading with a checked task followed by a task that is not checked, filed into an empty archive. The active heading keeps only the second task. A new "Work" heading holds the checked task, whose children are now "Archived" and a tab followed by the date |
| PassExamples.MergeIntoExisting | cmd/gogtd/main.go:99-108 | Example: a newly checked item under "Work" is appended after the existing item of the archive's "Work" heading, and no second heading is created |

## Left out

- Command dispatch, environment configuration (`GTDPATH`) and `log.Fatal` exits
  (cmd/gogtd/main.go:18-41) are process glue. They are not modelled.
- File I/O: loading, probing and writing the two outline files
  (cmd/gogtd/main.go:55-72, 121-128) is not modelled. A missing or malformed archive
  is represented by calling `ArchivePass` with an empty archive. The code does not
  clear `outDoc` when the load fails (cmd/gogtd/main.go:69-72): it keeps whatever
  `govotl.LoadFile` returned with the error. The empty archive assumes that
  LoadFile returns an empty document when it fails. The outline text
  format and its parser belong to govotl and are not part of this model.
- The clock: `time.Now().Format(time.DateOnly)` is replaced by a `date` string
  parameter. Its `YYYY-MM-DD` shape is not modelled. The code reads the clock once
  per moved item, inside the child loop (cmd/gogtd/main.go:89), so a run that
  crosses midnight can stamp items with different dates. The model stamps every
  item of one pass with the same `date` and does not capture that difference.
- govotl internals: `NewElement` stands for `NewVOTLElement` and is assumed to yield
  a heading with the given value, unchecked and without children. `AddChild` is
  assumed to append such an element after the existing children. Its error result
  is ignored by the source and assumed never to occur.
- Slice aliasing: Go slices can share backing arrays, and here they do. When
  several archive headings share a value, line 104 copies the same `move` structs
  into each, so the copies share each moved item's `Children` array.
  `newHead.Children = move` (line 112) shares `move`'s array with the new heading.
  A moved item's `Children` can share storage with the original child it was
  copied from. The model uses values. It matches the code because no element's
  visible contents are changed through shared storage. Nothing appends to a moved
  item's children after line 89. An `append` only writes past the length of the
  slice it extends, so the slices that share its array do not change. `move` is a
  fresh local of each heading's iteration and is not read after line 113.
- Progress output (`fmt.Printf`/`fmt.Println`) and the commented-out block at
  cmd/gogtd/main.go:74-77 are not modelled.
