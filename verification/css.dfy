/**
  CSS attribute helpers: adding a class to a node (appending to an
  existing class list) and setting its id.
*/
module Css {
  import opened Strings
  import opened Model

  const CSS_CLASS_ATTR: string := "class"
  const CSS_ID_ATTR: string := "id"

  /** The class list after adding `cls` to an optional existing one. */
  function ExtendClass(existing: Option<string>, cls: string): string {
    match existing
    case Some(e) => e + " " + cls
    case None => cls
  }

  /** `with_class`: the node's class becomes `cls`, or "existing cls" when it
      already had one; nothing but the class attribute changes. */
  function WithClass(n: Node, cls: string): (r: Node)
    ensures r.el == n.el && r.tags == n.tags
    ensures GetAttr(n.attrs, CSS_CLASS_ATTR).None? ==> GetAttr(r.attrs, CSS_CLASS_ATTR) == Some(cls)
    ensures GetAttr(n.attrs, CSS_CLASS_ATTR).Some? ==>
      GetAttr(r.attrs, CSS_CLASS_ATTR) == Some(GetAttr(n.attrs, CSS_CLASS_ATTR).value + " " + cls)
    ensures forall k :: k != CSS_CLASS_ATTR ==> GetAttr(r.attrs, k) == GetAttr(n.attrs, k)
  {
    n.WithAttr(CSS_CLASS_ATTR, ExtendClass(GetAttr(n.attrs, CSS_CLASS_ATTR), cls))
  }

  /** `with_id`: set the id attribute, leaving every other attribute alone. */
  function WithId(n: Node, id: string): (r: Node)
    ensures r.el == n.el && r.tags == n.tags
    ensures GetAttr(r.attrs, CSS_ID_ATTR) == Some(id)
    ensures forall k :: k != CSS_ID_ATTR ==> GetAttr(r.attrs, k) == GetAttr(n.attrs, k)
  {
    n.WithAttr(CSS_ID_ATTR, id)
  }

  /** `floating_menu`: add the class "floating-menu". */
  function FloatingMenu(n: Node): (r: Node)
    ensures r.el == n.el && r.tags == n.tags
    ensures GetAttr(r.attrs, CSS_CLASS_ATTR) == Some(ExtendClass(GetAttr(n.attrs, CSS_CLASS_ATTR), "floating-menu"))
    ensures forall k :: k != CSS_CLASS_ATTR ==> GetAttr(r.attrs, k) == GetAttr(n.attrs, k)
  {
    WithClass(n, "floating-menu")
  }

  /** `title`: add the class "title". */
  function Title(n: Node): (r: Node)
    ensures r.el == n.el && r.tags == n.tags
    ensures GetAttr(r.attrs, CSS_CLASS_ATTR) == Some(ExtendClass(GetAttr(n.attrs, CSS_CLASS_ATTR), "title"))
    ensures forall k :: k != CSS_CLASS_ATTR ==> GetAttr(r.attrs, k) == GetAttr(n.attrs, k)
  {
    WithClass(n, "title")
  }

  /** Adding two classes in turn to a node without one leaves both, space
      separated, in the order they were added. */
  lemma WithClassTwice(n: Node, a: string, b: string)
    requires GetAttr(n.attrs, CSS_CLASS_ATTR).None?
    ensures GetAttr(WithClass(WithClass(n, a), b).attrs, CSS_CLASS_ATTR) == Some(a + " " + b)
  {
  }
}
