/**
 Specification of one step of the archive pass: how a heading's children are
 split into the ones it keeps and the ones it moves, how a moved item is
 stamped, and how the moved items are filed under the archive's heading of the
 same value.
 */
module Archive {
  import opened Outline

  /** The first metadata child appended to every archived item. */
  const ArchivedMarker: string := "Archived"

  /** A child is moved to the archive exactly when it is a checked checkbox. */
  predicate IsDone(c: Element)
  {
    c.kind == Checkbox && c.checked
  }

  /** The archival metadata: "Archived", then a tab followed by the date. */
  function Stamp(c: Element, date: string): Element
  {
    AddChild(AddChild(c, ArchivedMarker), "\t" + date)
  }

  /** Drops the two metadata children that Stamp appends. */
  function Unstamp(c: Element): Element
  {
    if |c.children| >= 2 then c.(children := c.children[..|c.children| - 2]) else c
  }

  /** The children a heading keeps: everything that is not a checked checkbox,
      in its original order. */
  function Keep(children: seq<Element>): seq<Element>
    decreases |children|
  {
    if children == [] then []
    else
      var last := children[|children| - 1];
      Keep(children[..|children| - 1]) + (if IsDone(last) then [] else [last])
  }

  /** The children a heading moves: the checked checkboxes, stamped, in their
      original order. */
  function Moved(children: seq<Element>, date: string): seq<Element>
    decreases |children|
  {
    if children == [] then []
    else
      var last := children[|children| - 1];
      Moved(children[..|children| - 1], date) + (if IsDone(last) then [Stamp(last, date)] else [])
  }

  /** Stamping adds exactly the two metadata children after the existing ones
      and nothing else; Unstamp undoes it. */
  lemma StampRoundTrip(c: Element, date: string)
    ensures Stamp(c, date).children == c.children + [NewElement(ArchivedMarker), NewElement("\t" + date)]
    ensures Stamp(c, date).kind == c.kind && Stamp(c, date).value == c.value
    ensures Stamp(c, date).checked == c.checked
    ensures Unstamp(Stamp(c, date)) == c
  {
  }

  /** Both halves of the split distribute over concatenation: splitting keeps
      the original relative order on each side. */
  lemma {:induction false} SplitAppend(a: seq<Element>, b: seq<Element>, date: string)
    ensures Keep(a + b) == Keep(a) + Keep(b)
    ensures Moved(a + b, date) == Moved(a, date) + Moved(b, date)
    decreases |b|
  {
    if b == [] {
      assert a + b == a;
    } else {
      var b' := b[..|b| - 1];
      SplitAppend(a, b', date);
      assert (a + b)[..|a + b| - 1] == a + b';
      assert (a + b)[|a + b| - 1] == b[|b| - 1];
    }
  }

  /** Splitting one child. */
  lemma SplitSingle(x: Element, date: string)
    ensures Keep([x]) == if IsDone(x) then [] else [x]
    ensures Moved([x], date) == if IsDone(x) then [Stamp(x, date)] else []
  {
  }

  /** Every child lands on exactly one side. */
  lemma {:induction false} SplitSizes(children: seq<Element>, date: string)
    ensures |Keep(children)| + |Moved(children, date)| == |children|
    decreases |children|
  {
    if children != [] {
      SplitSizes(children[..|children| - 1], date);
    }
  }

  /** The kept children are exactly the children that are not checked checkboxes. */
  lemma {:induction false} KeepMembers(children: seq<Element>)
    ensures forall x :: x in Keep(children) <==> x in children && !IsDone(x)
    decreases |children|
  {
    if children != [] {
      var init := children[..|children| - 1];
      KeepMembers(init);
      assert children == init + [children[|children| - 1]];
    }
  }

  /** The moved children are exactly the checked checkboxes, each stamped. */
  lemma {:induction false} MovedMembers(children: seq<Element>, date: string)
    ensures forall x :: x in Moved(children, date) ==>
      IsDone(x) && Unstamp(x) in children && IsDone(Unstamp(x)) && Stamp(Unstamp(x), date) == x
    ensures forall x :: x in children && IsDone(x) ==> Stamp(x, date) in Moved(children, date)
    decreases |children|
  {
    if children != [] {
      var init := children[..|children| - 1];
      var last := children[|children| - 1];
      MovedMembers(init, date);
      assert children == init + [last];
      StampRoundTrip(last, date);
    }
  }

  /** What a heading keeps contains nothing more to move, and splitting it again
      keeps all of it. */
  lemma {:induction false} KeepSettled(children: seq<Element>, date: string)
    ensures Keep(Keep(children)) == Keep(children)
    ensures Moved(Keep(children), date) == []
    decreases |children|
  {
    if children != [] {
      var init := children[..|children| - 1];
      var last := children[|children| - 1];
      KeepSettled(init, date);
      if IsDone(last) {
        assert Keep(children) == Keep(init);
      } else {
        assert Keep(children) == Keep(init) + [last];
        SplitAppend(Keep(init), [last], date);
        SplitSingle(last, date);
      }
    }
  }

  /** An archive element is a target for `value` when it is a heading whose value
      is exactly `value`. */
  predicate Matches(e: Element, value: string)
  {
    e.kind == Heading && e.value == value
  }

  predicate HasHeading(doc: Document, value: string)
  {
    exists j :: 0 <= j < |doc| && Matches(doc[j], value)
  }

  /** One archive element after the moved items for `value` are filed. */
  function Grow(e: Element, value: string, move: seq<Element>): Element
  {
    if Matches(e, value) then e.(children := e.children + move) else e
  }

  /** The heading created when the archive has none for `value`. */
  function NewHeading(value: string, move: seq<Element>): Element
  {
    NewElement(value).(children := move)
  }

  /** Filing `move` under `value`: every matching heading receives it, and a new
      heading is appended only when none matches. */
  function File(doc: Document, value: string, move: seq<Element>): Document
  {
    if HasHeading(doc, value) then seq(|doc|, j requires 0 <= j < |doc| => Grow(doc[j], value, move))
    else doc + [NewHeading(value, move)]
  }

  /** Each element of the archive after filing, position by position: every
      matching heading (not only the first) gets `move` after its prior children,
      everything else is unchanged, and exactly one heading is appended at the
      end when no heading matched, even when `move` is empty. */
  lemma FileShape(doc: Document, value: string, move: seq<Element>)
    ensures |File(doc, value, move)| == |doc| + (if HasHeading(doc, value) then 0 else 1)
    ensures forall j :: 0 <= j < |doc| && Matches(doc[j], value) ==>
      File(doc, value, move)[j] == doc[j].(children := doc[j].children + move)
    ensures forall j :: 0 <= j < |doc| && !Matches(doc[j], value) ==> File(doc, value, move)[j] == doc[j]
    ensures !HasHeading(doc, value) ==>
      File(doc, value, move)[|doc|] == Element(Heading, value, false, move)
  {
  }

  /** After filing, the archive has a heading for `value`. */
  lemma FileFinds(doc: Document, value: string, move: seq<Element>)
    ensures HasHeading(File(doc, value, move), value)
    ensures exists j ::
      && 0 <= j < |File(doc, value, move)|
      && Matches(File(doc, value, move)[j], value)
      && (forall x :: x in move ==> x in File(doc, value, move)[j].children)
  {
    var r := File(doc, value, move);
    if HasHeading(doc, value) {
      var j :| 0 <= j < |doc| && Matches(doc[j], value);
      assert r[j] == doc[j].(children := doc[j].children + move);
      assert Matches(r[j], value);
    } else {
      assert Matches(r[|doc|], value);
    }
  }

  /** Filing nothing under a value that already has a heading changes nothing. */
  lemma FileNothing(doc: Document, value: string)
    requires HasHeading(doc, value)
    ensures File(doc, value, []) == doc
  {
    var r := File(doc, value, []);
    assert forall j :: 0 <= j < |doc| ==> r[j] == doc[j] by {
      forall j | 0 <= j < |doc| ensures r[j] == doc[j] {
        assert doc[j].children + [] == doc[j].children;
      }
    }
  }

  /** `after` is `before` with elements possibly grown in place and headings
      possibly appended at the end: nothing is removed or reordered, kind, value
      and flag never change, children only get new ones after the old ones, and
      a non-heading is never touched. */
  predicate Grown(before: Element, after: Element)
  {
    after.kind == before.kind && after.value == before.value && after.checked == before.checked
    && before.children <= after.children
    && (before.kind != Heading ==> after == before)
  }

  predicate Extends(before: Document, after: Document)
  {
    |before| <= |after|
    && (forall j :: 0 <= j < |before| ==> Grown(before[j], after[j]))
    && (forall j :: |before| <= j < |after| ==> after[j].kind == Heading)
  }

  lemma ExtendsTransitive(a: Document, b: Document, c: Document)
    requires Extends(a, b) && Extends(b, c)
    ensures Extends(a, c)
  {
  }

  /** Filing only grows the archive, and appends at most one heading, which
      carries `value`. */
  lemma FileExtends(doc: Document, value: string, move: seq<Element>)
    ensures Extends(doc, File(doc, value, move))
    ensures forall j :: |doc| <= j < |File(doc, value, move)| ==> File(doc, value, move)[j].value == value
  {
  }

  /** No two headings of the document share a value. */
  predicate UniqueHeadings(doc: Document)
  {
    forall j, k :: 0 <= j < k < |doc| && doc[j].kind == Heading && doc[k].kind == Heading ==>
      doc[j].value != doc[k].value
  }

  /** Filing never creates a duplicate heading. */
  lemma FileKeepsUnique(doc: Document, value: string, move: seq<Element>)
    requires UniqueHeadings(doc)
    ensures UniqueHeadings(File(doc, value, move))
  {
  }
}
