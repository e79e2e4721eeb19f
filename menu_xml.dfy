/**
 * The already-parsed output of the external menu tool, in the openbox3 pipe
 * menu format: the `menu` elements directly under the root, in document
 * order, each with the children `findall('item')` looks at.
 */
module MenuXml {
  import opened Wrappers

  /** A child element of a category. Only `item` elements describe programs. */
  datatype Element =
    | Item(labelAttr: Option<string>, iconAttr: Option<string>, text: seq<string>)
      // `labelAttr` and `iconAttr` are the `label` and `icon` attributes, `text` is what `itertext()` yields
    | OtherElement
      // any other child (a separator, a nested menu): `findall('item')` skips it

  /** A top-level `menu` element: one category. */
  datatype Menu = Menu(labelAttr: Option<string>, iconAttr: Option<string>, children: seq<Element>)
}
