/**
 Specification of the whole archive pass over the active document, and what it
 guarantees about the two documents it produces.
 */
module Pass {
  import opened Outline
  import opened Archive

  /** A top-level element of the active document after the pass: a heading keeps
      only its children that are not checked checkboxes; anything else stays. */
  function Clean(e: Element): Element
  {
    if e.kind == Heading then e.(children := Keep(e.children)) else e
  }

  /** The active document after the pass. */
  function CleanDoc(doc: Document): Document
  {
    seq(|doc|, i requires 0 <= i < |doc| => Clean(doc[i]))
  }

  /** The archive after the pass has visited every top-level element of `doc`
      in order, each heading filing its moved children. */
  function ArchiveDoc(doc: Document, out: Document, date: string): Document
    decreases |doc|
  {
    if doc == [] then out
    else
      var prev := ArchiveDoc(doc[..|doc| - 1], out, date);
      var e := doc[|doc| - 1];
      if e.kind == Heading then File(prev, e.value, Moved(e.children, date)) else prev
  }

  /** The active document keeps its length and positions; non-headings are left
      exactly as they were; each heading keeps its type, value and flag, and its
      children become exactly its children that are not checked checkboxes, in
      their original order, so no checked checkbox is left under a heading. */
  lemma ActiveResult(doc: Document)
    ensures |CleanDoc(doc)| == |doc|
    ensures forall i :: 0 <= i < |doc| && doc[i].kind != Heading ==> CleanDoc(doc)[i] == doc[i]
    ensures forall i :: 0 <= i < |doc| && doc[i].kind == Heading ==>
      && CleanDoc(doc)[i].kind == Heading
      && CleanDoc(doc)[i].value == doc[i].value
      && CleanDoc(doc)[i].checked == doc[i].checked
      && CleanDoc(doc)[i].children == Keep(doc[i].children)
      && (forall x :: x in CleanDoc(doc)[i].children <==> x in doc[i].children && !IsDone(x))
  {
    forall i | 0 <= i < |doc| && doc[i].kind == Heading {
      KeepMembers(doc[i].children);
    }
  }

  /** The archive is only ever grown: nothing is removed or reordered, existing
      elements keep type, value and flag and only gain children after their old
      ones, non-headings are untouched, and every appended element is a heading
      for the value of some heading of the active document. */
  lemma {:induction false} ArchiveGrows(doc: Document, out: Document, date: string)
    ensures Extends(out, ArchiveDoc(doc, out, date))
    ensures forall j :: |out| <= j < |ArchiveDoc(doc, out, date)| ==>
      exists i :: 0 <= i < |doc| && Matches(doc[i], ArchiveDoc(doc, out, date)[j].value)
    decreases |doc|
  {
    if doc != [] {
      var init := doc[..|doc| - 1];
      var e := doc[|doc| - 1];
      var prev := ArchiveDoc(init, out, date);
      var r := ArchiveDoc(doc, out, date);
      ArchiveGrows(init, out, date);
      if e.kind == Heading {
        FileExtends(prev, e.value, Moved(e.children, date));
        ExtendsTransitive(out, prev, r);
        forall j | |out| <= j < |r|
          ensures exists i :: 0 <= i < |doc| && Matches(doc[i], r[j].value)
        {
          if j < |prev| {
            var i :| 0 <= i < |init| && Matches(init[i], prev[j].value);
            assert doc[i] == init[i];
            assert r[j].value == prev[j].value;
          } else {
            assert Matches(doc[|doc| - 1], r[j].value);
          }
        }
      } else {
        forall j | |out| <= j < |r|
          ensures exists i :: 0 <= i < |doc| && Matches(doc[i], r[j].value)
        {
          var i :| 0 <= i < |init| && Matches(init[i], prev[j].value);
          assert doc[i] == init[i];
        }
      }
    }
  }

  /** An archive element whose value no heading of the active document carries
      is left exactly as it was. */
  lemma {:induction false} ArchiveUntouched(doc: Document, out: Document, date: string, j: nat)
    requires j < |out|
    requires forall i :: 0 <= i < |doc| ==> !Matches(doc[i], out[j].value)
    ensures j < |ArchiveDoc(doc, out, date)| && ArchiveDoc(doc, out, date)[j] == out[j]
  {
    ExistingGainsExactly(doc, out, date, j);
    MovedForNone(doc, out[j].value, date);
    assert out[j].children + [] == out[j].children;
  }

  /** After the pass, every heading of the active document has a heading of the
      same value in the archive. */
  lemma {:induction false} EveryHeadingFiled(doc: Document, out: Document, date: string)
    ensures forall i :: 0 <= i < |doc| && doc[i].kind == Heading ==>
      HasHeading(ArchiveDoc(doc, out, date), doc[i].value)
    decreases |doc|
  {
    if doc != [] {
      var init := doc[..|doc| - 1];
      var e := doc[|doc| - 1];
      var prev := ArchiveDoc(init, out, date);
      var r := ArchiveDoc(doc, out, date);
      EveryHeadingFiled(init, out, date);
      if e.kind == Heading {
        var move := Moved(e.children, date);
        FileFinds(prev, e.value, move);
        FileExtends(prev, e.value, move);
        forall i | 0 <= i < |init| && init[i].kind == Heading
          ensures HasHeading(r, init[i].value)
        {
          var j :| 0 <= j < |prev| && Matches(prev[j], init[i].value);
          assert Grown(prev[j], r[j]);
        }
      }
      assert forall i :: 0 <= i < |init| ==> init[i] == doc[i];
    }
  }

  /** The archive has a heading for `value` that holds `x` among its children. */
  predicate FiledUnder(archive: Document, value: string, x: Element)
  {
    exists j :: 0 <= j < |archive| && Matches(archive[j], value) && x in archive[j].children
  }

  /** Every checked checkbox directly under a heading of the active document ends
      up, stamped, among the children of an archive heading of the same value. */
  lemma {:induction false} MovedItemsFiled(doc: Document, out: Document, date: string)
    ensures forall i, c :: 0 <= i < |doc| && doc[i].kind == Heading && c in doc[i].children && IsDone(c) ==>
      FiledUnder(ArchiveDoc(doc, out, date), doc[i].value, Stamp(c, date))
    decreases |doc|
  {
    if doc != [] {
      var init := doc[..|doc| - 1];
      var e := doc[|doc| - 1];
      var prev := ArchiveDoc(init, out, date);
      var r := ArchiveDoc(doc, out, date);
      MovedItemsFiled(init, out, date);
      if e.kind == Heading {
        FileExtends(prev, e.value, Moved(e.children, date));
      }
      forall i, c | 0 <= i < |doc| && doc[i].kind == Heading && c in doc[i].children && IsDone(c)
        ensures FiledUnder(r, doc[i].value, Stamp(c, date))
      {
        if i < |init| {
          assert doc[i] == init[i];
          var j :| 0 <= j < |prev| && Matches(prev[j], init[i].value) && Stamp(c, date) in prev[j].children;
          if e.kind == Heading {
            assert Grown(prev[j], r[j]);
            assert prev[j].children == r[j].children[..|prev[j].children|];
          }
          assert Matches(r[j], doc[i].value) && Stamp(c, date) in r[j].children;
        } else {
          MovedMembers(e.children, date);
          FileFinds(prev, e.value, Moved(e.children, date));
        }
      }
    }
  }

  /** Everything the pass moves out of the active headings with value `value`,
      in the order the pass visits them. */
  function MovedFor(doc: Document, value: string, date: string): seq<Element>
    decreases |doc|
  {
    if doc == [] then []
    else
      var e := doc[|doc| - 1];
      MovedFor(doc[..|doc| - 1], value, date) + (if Matches(e, value) then Moved(e.children, date) else [])
  }

  /** Without an active heading for `value`, nothing is moved for it. */
  lemma {:induction false} MovedForNone(doc: Document, value: string, date: string)
    requires forall i :: 0 <= i < |doc| ==> !Matches(doc[i], value)
    ensures MovedFor(doc, value, date) == []
    decreases |doc|
  {
    if doc != [] {
      var init := doc[..|doc| - 1];
      assert forall i :: 0 <= i < |init| ==> init[i] == doc[i];
      MovedForNone(init, value, date);
    }
  }

  /** Exactly what an element already in the archive gains over the whole pass:
      a heading gets, after its old children, everything moved out of the active
      headings with its value, in order, and nothing else; any other element is
      unchanged. */
  lemma {:induction false} ExistingGainsExactly(doc: Document, out: Document, date: string, j: nat)
    requires j < |out|
    ensures j < |ArchiveDoc(doc, out, date)|
    ensures ArchiveDoc(doc, out, date)[j] ==
      if out[j].kind == Heading then out[j].(children := out[j].children + MovedFor(doc, out[j].value, date))
      else out[j]
    decreases |doc|
  {
    var v := out[j].value;
    if doc == [] {
      assert out[j].children + [] == out[j].children;
    } else {
      var init := doc[..|doc| - 1];
      var e := doc[|doc| - 1];
      var prev := ArchiveDoc(init, out, date);
      ExistingGainsExactly(init, out, date, j);
      ArchiveGrows(init, out, date);
      if e.kind == Heading {
        var m := Moved(e.children, date);
        FileShape(prev, e.value, m);
        if Matches(prev[j], e.value) {
          assert out[j].children + MovedFor(init, v, date) + m
              == out[j].children + (MovedFor(init, v, date) + m);
        }
      }
    }
  }

  /** Exactly what a heading the pass appends to the archive holds: everything
      moved out of the active headings with its value, in order, and nothing
      else (no metadata of its own, unchecked). */
  lemma {:induction false} AppendedExactly(doc: Document, out: Document, date: string, j: nat)
    requires |out| <= j < |ArchiveDoc(doc, out, date)|
    ensures ArchiveDoc(doc, out, date)[j] ==
      NewHeading(ArchiveDoc(doc, out, date)[j].value, MovedFor(doc, ArchiveDoc(doc, out, date)[j].value, date))
    decreases |doc|
  {
    var init := doc[..|doc| - 1];
    var e := doc[|doc| - 1];
    var prev := ArchiveDoc(init, out, date);
    var r := ArchiveDoc(doc, out, date);
    ArchiveGrows(init, out, date);
    if e.kind != Heading {
      AppendedExactly(init, out, date, j);
    } else {
      var m := Moved(e.children, date);
      FileShape(prev, e.value, m);
      if j < |prev| {
        AppendedExactly(init, out, date, j);
        var v := prev[j].value;
        assert prev[j].kind == Heading;
        if v == e.value {
          assert HasHeading(prev, e.value);
          assert MovedFor(init, v, date) + m == MovedFor(doc, v, date);
        }
      } else {
        assert !HasHeading(prev, e.value);
        EveryHeadingFiled(init, out, date);
        assert forall i :: 0 <= i < |init| ==> !Matches(init[i], e.value);
        MovedForNone(init, e.value, date);
        assert r[j] == NewHeading(e.value, m);
      }
    }
  }

  /** No heading appended after position `n` shares its value with any other
      heading of `r`. */
  predicate FreshAppended(n: nat, r: Document)
  {
    forall j, k :: n <= j < |r| && 0 <= k < |r| && k != j && r[k].kind == Heading ==> r[k].value != r[j].value
  }

  /** Whatever the archive held before, even duplicate headings, the pass never
      appends a heading whose value the archive already has, and never appends two
      headings with one value. */
  lemma {:induction false} NoNewDuplicates(doc: Document, out: Document, date: string)
    ensures FreshAppended(|out|, ArchiveDoc(doc, out, date))
    decreases |doc|
  {
    if doc != [] {
      var init := doc[..|doc| - 1];
      var e := doc[|doc| - 1];
      var prev := ArchiveDoc(init, out, date);
      var r := ArchiveDoc(doc, out, date);
      NoNewDuplicates(init, out, date);
      ArchiveGrows(init, out, date);
      if e.kind == Heading {
        var m := Moved(e.children, date);
        FileShape(prev, e.value, m);
        forall j, k | |out| <= j < |r| && 0 <= k < |r| && k != j && r[k].kind == Heading
          ensures r[k].value != r[j].value
        {
          if HasHeading(prev, e.value) {
            assert r[j].value == prev[j].value && r[k].kind == prev[k].kind && r[k].value == prev[k].value;
          } else if j == |prev| {
            assert !Matches(prev[k], e.value);
          } else if k == |prev| {
            assert prev[j].kind == Heading;
            assert !Matches(prev[j], e.value);
          } else {
            assert r[j] == prev[j] && r[k] == prev[k];
          }
        }
      }
    }
  }

  /** An archive without duplicate headings stays without them, however many
      headings of the active document share a value. */
  lemma {:induction false} UniqueHeadingsKept(doc: Document, out: Document, date: string)
    requires UniqueHeadings(out)
    ensures UniqueHeadings(ArchiveDoc(doc, out, date))
    decreases |doc|
  {
    if doc != [] {
      var init := doc[..|doc| - 1];
      var e := doc[|doc| - 1];
      UniqueHeadingsKept(init, out, date);
      if e.kind == Heading {
        FileKeepsUnique(ArchiveDoc(init, out, date), e.value, Moved(e.children, date));
      }
    }
  }

  /** The pass leaves an archive alone when it already has a heading for every
      heading of the active document and no heading has anything to move. */
  lemma {:induction false} ArchiveSettled(doc: Document, out: Document, date: string)
    requires forall i :: 0 <= i < |doc| && doc[i].kind == Heading ==>
      HasHeading(out, doc[i].value) && Moved(doc[i].children, date) == []
    ensures ArchiveDoc(doc, out, date) == out
    decreases |doc|
  {
    if doc != [] {
      var init := doc[..|doc| - 1];
      var e := doc[|doc| - 1];
      assert forall i :: 0 <= i < |init| ==> init[i] == doc[i];
      ArchiveSettled(init, out, date);
      if e.kind == Heading {
        FileNothing(out, e.value);
      }
    }
  }

  /** Running the pass again on its own output, with the same date, changes
      neither document. */
  lemma PassIdempotent(doc: Document, out: Document, date: string)
    ensures CleanDoc(CleanDoc(doc)) == CleanDoc(doc)
    ensures ArchiveDoc(CleanDoc(doc), ArchiveDoc(doc, out, date), date) == ArchiveDoc(doc, out, date)
  {
    var active := CleanDoc(doc);
    var archive := ArchiveDoc(doc, out, date);
    EveryHeadingFiled(doc, out, date);
    forall i | 0 <= i < |doc|
      ensures CleanDoc(active)[i] == active[i]
      ensures active[i].kind == Heading ==>
        HasHeading(archive, active[i].value) && Moved(active[i].children, date) == []
    {
      KeepSettled(doc[i].children, date);
    }
    ArchiveSettled(active, archive, date);
  }
}

/** Two worked examples of the pass: a first archive of a heading, and a later
    one that merges into the heading already in the archive. */
module PassExamples {
  import opened Outline
  import opened Archive
  import opened Pass

  lemma FirstArchive(done: Element, open: Element, date: string)
    requires IsDone(done) && done.children == []
    requires !IsDone(open)
    ensures
      var work := Element(Heading, "Work", false, [done, open]);
      && CleanDoc([work]) == [work.(children := [open])]
      && ArchiveDoc([work], [], date) ==
         [Element(Heading, "Work", false,
                  [done.(children := [NewElement("Archived"), NewElement("\t" + date)])])]
  {
    var work := Element(Heading, "Work", false, [done, open]);
    SplitAppend([done], [open], date);
    SplitSingle(done, date);
    SplitSingle(open, date);
    assert [done] + [open] == [done, open];
    assert Keep([done, open]) == [open];
    var m := Moved([done, open], date);
    assert m == [Stamp(done, date)];
    assert [work][..0] == [];
    assert ArchiveDoc([work], [], date) == File([], "Work", m);
    assert !HasHeading([], "Work");
    StampRoundTrip(done, date);
  }

  lemma MergeIntoExisting(earlier: Element, item: Element, date: string)
    requires IsDone(item)
    ensures
      var work := Element(Heading, "Work", false, [item]);
      var archived := Element(Heading, "Work", false, [earlier]);
      ArchiveDoc([work], [archived], date) == [archived.(children := [earlier, Stamp(item, date)])]
  {
    var work := Element(Heading, "Work", false, [item]);
    var archived := Element(Heading, "Work", false, [earlier]);
    SplitSingle(item, date);
    assert [work][..0] == [];
    assert ArchiveDoc([work], [archived], date) == File([archived], "Work", [Stamp(item, date)]);
    assert Matches([archived][0], "Work");
    assert HasHeading([archived], "Work");
    FileShape([archived], "Work", [Stamp(item, date)]);
    var r := File([archived], "Work", [Stamp(item, date)]);
    assert |r| == 1 && r[0] == archived.(children := [earlier] + [Stamp(item, date)]);
    assert [earlier] + [Stamp(item, date)] == [earlier, Stamp(item, date)];
  }
}
