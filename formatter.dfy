/** The response formatter: a category or product as loaded with its
    associations, and the JSON-shaped record that
    `formatCategoryWithTranslations` and `formatProductWithTranslations`
    build from it. The two formatters call each other; because a loaded
    graph is a finite tree of values, the recursion ends. */
module Formatter {
  import opened Common
  import opened Translation

  /** The `Products` association of a category: not part of the query, or
      loaded as a list. */
  datatype ProductsInclude = NotIncluded | Included(items: seq<ProductNode>)

  /** A category as the ORM returns it, with whatever associations the
      query included. Attributes left out of a query read as absent. */
  datatype CategoryNode = CategoryNode(
    id: nat,
    title: string,
    description: Option<string>,
    image: Option<string>,
    isActive: bool,
    createdAt: Option<int>,
    updatedAt: Option<int>,
    translations: Option<seq<TranslationRow>>,
    products: ProductsInclude)
  {
    /** `Category.prototype.getTranslatedContent`. */
    function TranslatedContent(lang: string := DefaultLanguage): (c: Content)
      ensures translations.Some? && HasLanguage(translations.value, lang) ==>
        exists k :: IsFirstMatch(translations.value, lang, k)
                 && c == RowContent(translations.value[k])
      ensures translations.None? || !HasLanguage(translations.value, lang) ==>
        c == Content(title, description)
    {
      Resolve(Content(title, description), translations, lang)
    }
  }

  /** A product as the ORM returns it. `price` and `viewCount` are absent
      when the query's attribute list leaves them out. */
  datatype ProductNode = ProductNode(
    id: nat,
    title: string,
    description: Option<string>,
    price: Option<real>,
    image: Option<string>,
    categoryId: Option<nat>,
    isActive: bool,
    viewCount: Option<nat>,
    createdAt: Option<int>,
    updatedAt: Option<int>,
    translations: Option<seq<TranslationRow>>,
    category: Option<CategoryNode>)
  {
    /** `Product.prototype.getTranslatedContent`. */
    function TranslatedContent(lang: string := DefaultLanguage): (c: Content)
      ensures translations.Some? && HasLanguage(translations.value, lang) ==>
        exists k :: IsFirstMatch(translations.value, lang, k)
                 && c == RowContent(translations.value[k])
      ensures translations.None? || !HasLanguage(translations.value, lang) ==>
        c == Content(title, description)
    {
      Resolve(Content(title, description), translations, lang)
    }
  }

  /** The formatted category record. */
  datatype FormattedCategory = FormattedCategory(
    id: nat,
    title: string,
    description: Option<string>,
    image: Option<string>,
    isActive: bool,
    createdAt: Option<int>,
    updatedAt: Option<int>,
    translations: seq<TranslationRow>,
    products: seq<FormattedProduct>)

  /** The formatted product record; `category` is `null` when absent. */
  datatype FormattedProduct = FormattedProduct(
    id: nat,
    title: string,
    description: Option<string>,
    price: Option<real>,
    image: Option<string>,
    categoryId: Option<nat>,
    isActive: bool,
    viewCount: nat,
    createdAt: Option<int>,
    updatedAt: Option<int>,
    translations: seq<TranslationRow>,
    category: Option<FormattedCategory>)

  /** `formatCategoryWithTranslations`. */
  function FormatCategory(c: CategoryNode, lang: string := DefaultLanguage): (r: FormattedCategory)
    ensures Content(r.title, r.description) == c.TranslatedContent(lang)
    ensures r.id == c.id && r.image == c.image && r.isActive == c.isActive
    ensures r.createdAt == c.createdAt && r.updatedAt == c.updatedAt
    ensures c.translations.Some? ==> r.translations == c.translations.value
    ensures c.translations.None? ==> r.translations == []
    ensures c.products.NotIncluded? ==> r.products == []
    ensures c.products.Included? ==>
      && |r.products| == |c.products.items|
      && forall i :: 0 <= i < |r.products| ==> r.products[i] == FormatProduct(c.products.items[i], lang)
  {
    var content := c.TranslatedContent(lang);
    FormattedCategory(
      c.id, content.title, content.description, c.image, c.isActive,
      c.createdAt, c.updatedAt,
      c.translations.GetOr([]),
      match c.products
      case NotIncluded => []
      case Included(items) => seq(|items|, i requires 0 <= i < |items| => FormatProduct(items[i], lang)))
  }

  /** `formatProductWithTranslations`. */
  function FormatProduct(p: ProductNode, lang: string := DefaultLanguage): (r: FormattedProduct)
    ensures Content(r.title, r.description) == p.TranslatedContent(lang)
    ensures r.id == p.id && r.price == p.price && r.image == p.image
    ensures r.categoryId == p.categoryId && r.isActive == p.isActive
    ensures r.createdAt == p.createdAt && r.updatedAt == p.updatedAt
    ensures r.viewCount == if p.viewCount.Some? then p.viewCount.value else 0
    ensures p.translations.Some? ==> r.translations == p.translations.value
    ensures p.translations.None? ==> r.translations == []
    ensures p.category.None? ==> r.category.None?
    ensures p.category.Some? ==> r.category == Some(FormatCategory(p.category.value, lang))
  {
    var content := p.TranslatedContent(lang);
    FormattedProduct(
      p.id, content.title, content.description, p.price, p.image, p.categoryId,
      p.isActive, p.viewCount.GetOr(0), p.createdAt, p.updatedAt,
      p.translations.GetOr([]),
      match p.category
      case None => None
      case Some(c) => Some(FormatCategory(c, lang)))
  }

  /** A formatted category with every title and description blanked out,
      at every depth: what of the output does not depend on the language. */
  function CategoryShape(f: FormattedCategory): FormattedCategory {
    f.(title := "", description := None,
       products := seq(|f.products|, i requires 0 <= i < |f.products| => ProductShape(f.products[i])))
  }

  function ProductShape(f: FormattedProduct): FormattedProduct {
    f.(title := "", description := None,
       category := match f.category
                   case None => None
                   case Some(c) => Some(CategoryShape(c)))
  }

  /** The requested language changes only titles and descriptions: ids,
      prices, flags, counters, timestamps, the raw translation lists and
      the nesting of products and categories are the same in any language. */
  lemma {:induction false} CategoryShapeLanguageIndependent(c: CategoryNode, lang1: string, lang2: string)
    ensures CategoryShape(FormatCategory(c, lang1)) == CategoryShape(FormatCategory(c, lang2))
    decreases c
  {
    match c.products
    case NotIncluded =>
    case Included(items) =>
      var f1, f2 := FormatCategory(c, lang1), FormatCategory(c, lang2);
      forall i | 0 <= i < |items|
        ensures ProductShape(f1.products[i]) == ProductShape(f2.products[i])
      {
        ProductShapeLanguageIndependent(items[i], lang1, lang2);
      }
      assert CategoryShape(f1).products == CategoryShape(f2).products;
  }

  lemma {:induction false} ProductShapeLanguageIndependent(p: ProductNode, lang1: string, lang2: string)
    ensures ProductShape(FormatProduct(p, lang1)) == ProductShape(FormatProduct(p, lang2))
    decreases p
  {
    match p.category
    case None =>
    case Some(c) =>
      CategoryShapeLanguageIndependent(c, lang1, lang2);
  }

  /** When a node's attached rows come from a table with the unique
      (parent, language) index, so are in distinct languages, the formatted
      text for a language that has a row is that row's text. */
  lemma FormatUsesStoredRow(p: ProductNode, lang: string, row: TranslationRow)
    requires p.translations.Some? && DistinctLanguages(p.translations.value)
    requires row in p.translations.value && row.language == lang
    ensures FormatProduct(p, lang).title == row.title
    ensures FormatProduct(p, lang).description == row.description
  {
    ResolveDistinct(Content(p.title, p.description), p.translations.value, row);
  }
}
