/** `extract_product_data`: builds a product record from a parsed page.
    The parser is abstracted to the three elements the function looks up with
    `select_one` (the first element carrying each CSS class, if any). */
module Extractor {

  import opened Wrappers
  import opened Strings

  /** An HTML element: its attributes and its `.text`. */
  datatype Element = Element(attrs: map<string, string>, text: string)

  /** A parsed page. `links` are the `href` values of `soup.select("a[href]")`,
      in document order; `image`, `title` and `price` are the results of
      `select_one(".wp-post-image")`, `select_one(".woocommerce-loop-product__title")`
      and `select_one(".price")`. */
  datatype Doc = Doc(links: seq<string>, image: Option<Element>, title: Option<Element>, price: Option<Element>)

  /** One product record: the dictionary with keys url, image, name, price. */
  datatype Product = Product(url: string, image: string, name: string, price: string)

  const NoImage: string := "No image found"
  const NoTitle: string := "No title found"
  const NoPrice: string := "No price found"

  /** `element.text.strip() if element else sentinel`. */
  function TextOr(e: Option<Element>, sentinel: string): string
  {
    match e
    case None => sentinel
    case Some(el) => Strip(el.text)
  }

  /** The one lookup that can raise: `product_image["src"]` on an image
      element without a `src` attribute (a `KeyError`). */
  predicate ImageFaults(doc: Doc)
  {
    doc.image.Some? && "src" !in doc.image.value.attrs
  }

  /** `extract_product_data(soup, current_url)`; `None` is the `except` path. */
  function ExtractProductData(doc: Doc, currentUrl: string): Option<Product>
  {
    var image :=
      match doc.image
      case None => Some(NoImage)
      case Some(img) => if "src" in img.attrs then Some(img.attrs["src"]) else None;
    match image
    case None => None
    case Some(src) => Some(Product(currentUrl, src, TextOr(doc.title, NoTitle), TextOr(doc.price, NoPrice)))
  }

  /** The record is missing only on the fault; otherwise its url is always
      `currentUrl` and each field is its element's value or, when the element
      is absent, its own sentinel. */
  lemma ExtractProductDataSpec(doc: Doc, currentUrl: string)
    ensures var r := ExtractProductData(doc, currentUrl);
      (r.None? <==> ImageFaults(doc))
      && (r.Some? ==>
            r.value.url == currentUrl
            && r.value.image == (if doc.image.None? then NoImage else doc.image.value.attrs["src"])
            && r.value.name == (if doc.title.None? then NoTitle else Strip(doc.title.value.text))
            && r.value.price == (if doc.price.None? then NoPrice else Strip(doc.price.value.text)))
  {
  }

  /** A missing element never loses the record: a page with an image (with a
      `src`) and a title but no price still yields a record, whose price is the
      sentinel and whose other fields come from the page. */
  lemma MissingPriceKeepsRecord(doc: Doc, url: string)
    requires doc.image.Some? && "src" in doc.image.value.attrs
    requires doc.title.Some? && doc.price.None?
    ensures ExtractProductData(doc, url)
         == Some(Product(url, doc.image.value.attrs["src"], Strip(doc.title.value.text), NoPrice))
  {
  }

  /** Each field depends only on its own element, and only the image element
      decides whether a record is produced at all. */
  lemma FieldsIndependent(doc: Doc, doc': Doc, url: string)
    ensures doc'.image == doc.image ==>
      ExtractProductData(doc', url).None? == ExtractProductData(doc, url).None?
    ensures ExtractProductData(doc, url).Some? && ExtractProductData(doc', url).Some? ==>
      var p, p' := ExtractProductData(doc, url).value, ExtractProductData(doc', url).value;
      (doc'.image == doc.image ==> p'.image == p.image)
      && (doc'.title == doc.title ==> p'.name == p.name)
      && (doc'.price == doc.price ==> p'.price == p.price)
  {
  }

  /** The name and price fields never carry surrounding whitespace, unless
      they are the sentinel. */
  lemma TextFieldsTrimmed(doc: Doc, url: string)
    requires ExtractProductData(doc, url).Some?
    ensures var p := ExtractProductData(doc, url).value;
      (doc.title.Some? ==> Strip(p.name) == p.name) && (doc.price.Some? ==> Strip(p.price) == p.price)
  {
    if doc.title.Some? { StripIdempotent(doc.title.value.text); }
    if doc.price.Some? { StripIdempotent(doc.price.value.text); }
  }
}
