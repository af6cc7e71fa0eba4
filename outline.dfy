/**
 The outline tree that the archiver works on: the parts of govotl's VOTLElement
 and VOTLDoc that the reconciliation pass reads and writes.
 */
module Outline {

  /** The element types the pass distinguishes. Every other govotl element type
      (body text, preformatted text, tables, ...) is `Other`: the pass only ever
      compares a type against Heading and Checkbox. */
  datatype Kind = Heading | Checkbox | Other

  /** One outline node. `checked` only means something for a Checkbox. */
  datatype Element = Element(kind: Kind, value: string, checked: bool, children: seq<Element>)

  /** A document is its ordered sequence of top-level elements. */
  type Document = seq<Element>

  /** govotl.NewVOTLElement(value): a heading with that value, unchecked and
      without children. */
  function NewElement(value: string): Element
  {
    Element(Heading, value, false, [])
  }

  /** govotl's AddChild(value) on an element: a new element built from `value`
      is appended after the element's existing children. */
  function AddChild(e: Element, value: string): Element
  {
    e.(children := e.children + [NewElement(value)])
  }
}
