/**
 The `archive` command of gogtd: choosing the two file names, and the
 reconciliation loop that moves checked tasks from the active list into the
 archive. Each method follows the loop structure of the command and is proved
 equal to the specification in modules Archive and Pass.
 */
module Gogtd {
  import opened Outline
  import opened Archive
  import opened Pass

  const DefaultInfile: string := "next_actions.otl"
  const DefaultOutfile: string := "archive.otl"

  /** The active list and archive file names: the defaults, each overridden by
      the matching positional argument when it is given; further arguments are
      ignored. */
  method ArchiveFiles(args: seq<string>) returns (infile: string, outfile: string)
    ensures |args| == 0 ==> infile == DefaultInfile && outfile == DefaultOutfile
    ensures |args| == 1 ==> infile == args[0] && outfile == DefaultOutfile
    ensures |args| >= 2 ==> infile == args[0] && outfile == args[1]
  {
    infile := DefaultInfile;
    outfile := DefaultOutfile;
    if |args| > 0 {
      infile := args[0];
    }
    if |args| > 1 {
      outfile := args[1];
    }
  }

  /** Splits a heading's children into the ones it keeps and the checked
      checkboxes it moves, stamping each moved one with the archival metadata. */
  method SplitChildren(children: seq<Element>, date: string) returns (keep: seq<Element>, move: seq<Element>)
    ensures keep == Keep(children)
    ensures move == Moved(children, date)
  {
    keep, move := [], [];
    for k := 0 to |children|
      invariant keep == Keep(children[..k])
      invariant move == Moved(children[..k], date)
    {
      var child := children[k];
      assert children[..k + 1][..k] == children[..k];
      if child.kind == Checkbox {
        if child.checked {
          child := AddChild(child, ArchivedMarker);
          child := AddChild(child, "\t" + date);
          move := move + [child];
          continue;
        }
      }
      keep := keep + [child];
    }
    assert children[..|children|] == children;
  }

  /** Appends `move` to every heading of the archive whose value is `value`,
      without stopping at the first one, and appends a new heading carrying
      `move` when there is none. */
  method FileUnder(outDoc: Document, value: string, move: seq<Element>) returns (archive: Document)
    ensures archive == File(outDoc, value, move)
  {
    archive := outDoc;
    var found := false;
    for j := 0 to |outDoc|
      invariant |archive| == |outDoc|
      invariant forall k :: 0 <= k < j ==> archive[k] == Grow(outDoc[k], value, move)
      invariant forall k :: j <= k < |outDoc| ==> archive[k] == outDoc[k]
      invariant found <==> exists k :: 0 <= k < j && Matches(outDoc[k], value)
    {
      var outElement := archive[j];
      if outElement.kind == Heading {
        if outElement.value == value {
          found := true;
          outElement := outElement.(children := outElement.children + move);
          archive := archive[j := outElement];
        }
      }
    }
    if !found {
      var newHead := NewElement(value);
      newHead := newHead.(children := move);
      archive := archive + [newHead];
    }
  }

  /** The reconciliation pass: every top-level heading of the active document
      gives up its checked checkboxes, which are stamped and filed under the
      archive's heading of the same value; everything else stays. */
  method ArchivePass(inDoc: Document, outDoc: Document, date: string) returns (active: Document, archive: Document)
    ensures active == CleanDoc(inDoc)
    ensures archive == ArchiveDoc(inDoc, outDoc, date)
  {
    active, archive := inDoc, outDoc;
    for i := 0 to |inDoc|
      invariant |active| == |inDoc|
      invariant forall k :: 0 <= k < i ==> active[k] == Clean(inDoc[k])
      invariant forall k :: i <= k < |inDoc| ==> active[k] == inDoc[k]
      invariant archive == ArchiveDoc(inDoc[..i], outDoc, date)
    {
      var element := active[i];
      assert inDoc[..i + 1][..i] == inDoc[..i];
      if element.kind == Heading {
        var keep, move := SplitChildren(element.children, date);
        archive := FileUnder(archive, element.value, move);
        element := element.(children := keep);
        active := active[i := element];
      }
    }
    assert inDoc[..|inDoc|] == inDoc;
  }
}
