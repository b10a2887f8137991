/**
 * The slice of the unist syntax tree that the two remark plugins touch:
 * text nodes, the custom elements they create, and a parent whose
 * `children` list is rewritten in place.
 */
module Unist {
  import opened InteractionParser

  /** A syntax-tree node as the plugins see it. */
  datatype Node =
    | Text(value: string)
    | Element(hName: string, hProperties: RemarkProps)
    | OtherNode(kind: string)

  /** A node with children; the visitor callbacks splice into `children`. */
  class Parent {
    var children: seq<Node>
  }
}
