/** A rendered page element as the scrapers read it through Playwright: its
    rendered text (`inner_text()`) and its attributes (`get_attribute`). The
    selectors that locate elements are configuration; each scraper's page
    snapshot arranges the located elements in the shape its loops walk. */
module Dom {
  import opened Wrappers

  datatype Element = Element(innerText: string, attributes: map<string, string>) {

    /** `get_attribute(name)`: None when the attribute is absent */
    function Attr(name: string): Option<string> {
      if name in attributes then Some(attributes[name]) else None
    }

    /** `get_attribute("class") or ""` */
    function ClassOrEmpty(): string {
      Attr("class").GetOr("")
    }
  }
}
