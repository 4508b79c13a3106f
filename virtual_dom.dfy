/** The host framework's attribute value (`yew::virtual_dom::AttrValue`),
    reduced to the two variants it has beside `IString`: constant text and
    reference-counted shared text. */
module VirtualDom {

  datatype AttrValue = Static(s: string) | Rc(s: string)
}
