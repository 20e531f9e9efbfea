/** The catalog handlers of the category and product controllers: each runs
    its guards in the source's order and writes nothing unless all of them
    pass; the translation payload is then written row by row. */
module Catalog {
  import opened Common
  import opened Translation
  import opened TranslationStore

  /** A stored category (timestamps are left to the ORM). */
  datatype Category = Category(
    title: string,
    description: Option<string>,
    image: Option<string>,
    isActive: bool)

  /** A stored product. `price` and `viewCount` are the columns the
      controller reads and writes. */
  datatype Product = Product(
    title: string,
    description: Option<string>,
    price: real,
    image: Option<string>,
    categoryId: Option<nat>,
    isActive: bool,
    viewCount: nat)

  datatype CatalogError =
    | TitleRequired
    | InvalidPrice
    | CategoryNotFound
    | CategoryInactive
    | DuplicateTitle
    | HasProducts
    | NotFound
    | TranslationRejected

  /** Titles are unique across all categories, active or not. */
  predicate UniqueTitles(categories: map<nat, Category>) {
    forall a, b :: a in categories && b in categories && a != b ==>
      categories[a].title != categories[b].title
  }

  predicate TitleTaken(categories: map<nat, Category>, title: string) {
    exists k :: k in categories && categories[k].title == title
  }

  predicate TitleTakenByOther(categories: map<nat, Category>, title: string, id: nat) {
    exists k :: k in categories && k != id && categories[k].title == title
  }

  predicate HasProductsIn(products: map<nat, Product>, id: nat) {
    exists k :: k in products && products[k].categoryId == Some(id)
  }

  /** A truthy category reference names an existing category. */
  predicate CategoryRefsExist(categories: map<nat, Category>, products: map<nat, Product>) {
    forall k :: k in products && TruthyId(products[k].categoryId) ==>
      products[k].categoryId.value in categories
  }

  /** The guard of create that a category reference must pass (`if (categoryId)`). */
  function CheckCategory(categories: map<nat, Category>, categoryId: Option<nat>): (e: Option<CatalogError>)
    ensures e == None <==>
      (!TruthyId(categoryId) || (categoryId.value in categories && categories[categoryId.value].isActive))
    ensures e != None ==> e == Some(CategoryNotFound) || e == Some(CategoryInactive)
    ensures e == Some(CategoryNotFound) <==> TruthyId(categoryId) && categoryId.value !in categories
  {
    if !TruthyId(categoryId) then None
    else if categoryId.value !in categories then Some(CategoryNotFound)
    else if !categories[categoryId.value].isActive then Some(CategoryInactive)
    else None
  }

  class Catalog {
    var categories: map<nat, Category>
    var products: map<nat, Product>
    var nextCategoryId: nat
    var nextProductId: nat
    const categoryTranslations: TranslationTable
    const productTranslations: TranslationTable

    ghost predicate Valid()
      reads this, categoryTranslations, productTranslations
    {
      && categoryTranslations != productTranslations
      && categoryTranslations.Valid() && productTranslations.Valid()
      && 0 < nextCategoryId && 0 < nextProductId
      && (forall k :: k in categories ==> 0 < k < nextCategoryId)
      && (forall k :: k in products ==> 0 < k < nextProductId)
      && UniqueTitles(categories)
      && (forall k :: k in products ==> products[k].price >= 0.0)
      && CategoryRefsExist(categories, products)
      && (forall row :: row in categoryTranslations.rows ==> row.parentId in categories)
      && (forall row :: row in productTranslations.rows ==> row.parentId in products)
    }

    constructor ()
      ensures Valid()
      ensures categories == map[] && products == map[]
      ensures categoryTranslations.rows == [] && productTranslations.rows == []
    {
      categories, products := map[], map[];
      nextCategoryId, nextProductId := 1, 1;
      categoryTranslations := new TranslationTable();
      productTranslations := new TranslationTable();
    }

    /** `createCategory`. */
    method CreateCategory(title: Option<string>, description: Option<string>, image: Option<string>,
                          translations: Option<seq<TranslationInput>>)
        returns (r: Result<nat, CatalogError>)
      requires Valid()
      modifies this, categoryTranslations
      ensures Valid()
      ensures unchanged(productTranslations) && products == old(products)
      ensures nextProductId == old(nextProductId)
      ensures !Truthy(title) ==> r == Err(TitleRequired) && unchanged(this, categoryTranslations)
      ensures Truthy(title) && TitleTaken(old(categories), title.value) ==>
        r == Err(DuplicateTitle) && unchanged(this, categoryTranslations)
      ensures Truthy(title) && !TitleTaken(old(categories), title.value) ==>
        var id := old(nextCategoryId);
        var saved := SaveEntries(old(categoryTranslations.rows), id, translations.GetOr([]));
        && id !in old(categories)
        && categories == old(categories)[id := Category(title.value, description, image, true)]
        && nextCategoryId == id + 1
        && categoryTranslations.rows == saved.rows
        && r == (if saved.complete then Ok(id) else Err(TranslationRejected))
    {
      if !Truthy(title) {
        return Err(TitleRequired);
      }
      if exists k :: k in categories && categories[k].title == title.value {
        return Err(DuplicateTitle);
      }
      var id := nextCategoryId;
      categories := categories[id := Category(title.value, description, image, true)];
      nextCategoryId := nextCategoryId + 1;
      r := SaveTranslations(categoryTranslations, id, translations);
    }

    /** The payload loop on one table, for a parent that exists. */
    method SaveTranslations(table: TranslationTable, id: nat, translations: Option<seq<TranslationInput>>)
        returns (r: Result<nat, CatalogError>)
      requires table == categoryTranslations || table == productTranslations
      requires table == categoryTranslations ==> id in categories
      requires table == productTranslations ==> id in products
      requires Valid()
      modifies table
      ensures Valid()
      ensures var saved := SaveEntries(old(table.rows), id, translations.GetOr([]));
        && table.rows == saved.rows
        && r == (if saved.complete then Ok(id) else Err(TranslationRejected))
    {
      var complete := true;
      if translations.Some? {
        complete := table.SaveAll(id, translations.value);
      } else {
        assert SaveEntries(table.rows, id, []) == SaveResult(table.rows, true);
      }
      r := if complete then Ok(id) else Err(TranslationRejected);
    }

    /** `updateCategory`. A truthy new title that differs from the current
        one must not be another category's title; `title || old` keeps the old
        title for an empty or absent one, the other fields keep theirs only
        when left out. `image` is the uploaded file, if any. */
    method UpdateCategory(id: nat, title: Option<string>, description: Patch<Option<string>>,
                          image: Option<string>, isActive: Patch<bool>,
                          translations: Option<seq<TranslationInput>>)
        returns (r: Result<nat, CatalogError>)
      requires Valid()
      modifies this, categoryTranslations
      ensures Valid()
      ensures unchanged(productTranslations) && products == old(products)
      ensures nextCategoryId == old(nextCategoryId) && nextProductId == old(nextProductId)
      ensures id !in old(categories) ==> r == Err(NotFound) && unchanged(this, categoryTranslations)
      ensures id in old(categories) && Truthy(title) && title.value != old(categories)[id].title
              && TitleTakenByOther(old(categories), title.value, id) ==>
        r == Err(DuplicateTitle) && unchanged(this, categoryTranslations)
      ensures id in old(categories) &&
              !(Truthy(title) && title.value != old(categories)[id].title
                && TitleTakenByOther(old(categories), title.value, id)) ==>
        var c := old(categories)[id];
        var saved := SaveEntries(old(categoryTranslations.rows), id, translations.GetOr([]));
        && categories == old(categories)[id := Category(
             OrElse(title, c.title),
             description.ApplyTo(c.description),
             if image.Some? then image else c.image,
             isActive.ApplyTo(c.isActive))]
        && categoryTranslations.rows == saved.rows
        && r == (if saved.complete then Ok(id) else Err(TranslationRejected))
    {
      if id !in categories {
        return Err(NotFound);
      }
      var c := categories[id];
      if Truthy(title) && title.value != c.title {
        if exists k :: k in categories && k != id && categories[k].title == title.value {
          return Err(DuplicateTitle);
        }
      }
      var newImage := if image.Some? then image else c.image;
      categories := categories[id := Category(OrElse(title, c.title), description.ApplyTo(c.description),
                                              newImage, isActive.ApplyTo(c.isActive))];
      r := SaveTranslations(categoryTranslations, id, translations);
    }

    /** `deleteCategory`: refused while any product, active or not, references
        the category; otherwise the row and, by the cascade, its translations
        are removed. */
    method DeleteCategory(id: nat) returns (r: Result<nat, CatalogError>)
      requires Valid()
      modifies this, categoryTranslations
      ensures Valid()
      ensures unchanged(productTranslations) && products == old(products)
      ensures nextCategoryId == old(nextCategoryId) && nextProductId == old(nextProductId)
      ensures id !in old(categories) ==> r == Err(NotFound) && unchanged(this, categoryTranslations)
      ensures id in old(categories) && HasProductsIn(old(products), id) ==>
        r == Err(HasProducts) && unchanged(this, categoryTranslations)
      ensures id in old(categories) && !HasProductsIn(old(products), id) ==>
        && r == Ok(id)
        && categories == old(categories) - {id}
        && categoryTranslations.rows == WithoutParent(old(categoryTranslations.rows), id)
    {
      if id !in categories {
        return Err(NotFound);
      }
      if exists k :: k in products && products[k].categoryId == Some(id) {
        return Err(HasProducts);
      }
      categories := categories - {id};
      categoryTranslations.RemoveParent(id);
      r := Ok(id);
    }

    /** `activateCategory` and `deactivateCategory`: only the flag changes;
        products that reference the category are untouched. */
    method SetCategoryActive(id: nat, active: bool) returns (r: Result<nat, CatalogError>)
      requires Valid()
      modifies this
      ensures Valid()
      ensures unchanged(categoryTranslations) && unchanged(productTranslations)
      ensures products == old(products)
      ensures nextCategoryId == old(nextCategoryId) && nextProductId == old(nextProductId)
      ensures id !in old(categories) ==> r == Err(NotFound) && categories == old(categories)
      ensures id in old(categories) ==>
        r == Ok(id) && categories == old(categories)[id := old(categories)[id].(isActive := active)]
    {
      if id !in categories {
        return Err(NotFound);
      }
      categories := categories[id := categories[id].(isActive := active)];
      r := Ok(id);
    }

    /** `createProduct`: the title must be truthy, the price present and not
        negative, and a truthy category reference must name an existing,
        active category. */
    method CreateProduct(title: Option<string>, description: Option<string>, price: Option<real>,
                         image: Option<string>, categoryId: Option<nat>,
                         translations: Option<seq<TranslationInput>>)
        returns (r: Result<nat, CatalogError>)
      requires Valid()
      modifies this, productTranslations
      ensures Valid()
      ensures unchanged(categoryTranslations) && categories == old(categories)
      ensures nextCategoryId == old(nextCategoryId)
      ensures !Truthy(title) ==> r == Err(TitleRequired) && unchanged(this, productTranslations)
      ensures Truthy(title) && (price.None? || price.value < 0.0) ==>
        r == Err(InvalidPrice) && unchanged(this, productTranslations)
      ensures Truthy(title) && price.Some? && price.value >= 0.0 && CheckCategory(old(categories), categoryId).Some? ==>
        r == Err(CheckCategory(old(categories), categoryId).value) && unchanged(this, productTranslations)
      ensures Truthy(title) && price.Some? && price.value >= 0.0 && CheckCategory(old(categories), categoryId).None? ==>
        var id := old(nextProductId);
        var saved := SaveEntries(old(productTranslations.rows), id, translations.GetOr([]));
        && id !in old(products)
        && products == old(products)[id := Product(title.value, description, price.value, image,
                                                   categoryId, true, 0)]
        && nextProductId == id + 1
        && productTranslations.rows == saved.rows
        && r == (if saved.complete then Ok(id) else Err(TranslationRejected))
    {
      if !Truthy(title) {
        return Err(TitleRequired);
      }
      if price.None? || price.value < 0.0 {
        return Err(InvalidPrice);
      }
      if TruthyId(categoryId) {
        if categoryId.value !in categories {
          return Err(CategoryNotFound);
        }
        if !categories[categoryId.value].isActive {
          return Err(CategoryInactive);
        }
      }
      var id := nextProductId;
      products := products[id := Product(title.value, description, price.value, image, categoryId, true, 0)];
      nextProductId := nextProductId + 1;
      r := SaveTranslations(productTranslations, id, translations);
    }

    /** `updateProduct`: every field keeps its value when left out; a price
        sent must not be negative, and a truthy category reference that
        differs from the current one must name an existing, active category. */
    method UpdateProduct(id: nat, title: Patch<string>, description: Patch<Option<string>>,
                         price: Patch<real>, image: Option<string>, categoryId: Patch<Option<nat>>,
                         isActive: Patch<bool>, translations: Option<seq<TranslationInput>>)
        returns (r: Result<nat, CatalogError>)
      requires Valid()
      modifies this, productTranslations
      ensures Valid()
      ensures unchanged(categoryTranslations) && categories == old(categories)
      ensures nextCategoryId == old(nextCategoryId) && nextProductId == old(nextProductId)
      ensures id !in old(products) ==> r == Err(NotFound) && unchanged(this, productTranslations)
      ensures id in old(products) && price.Set? && price.value < 0.0 ==>
        r == Err(InvalidPrice) && unchanged(this, productTranslations)
      ensures id in old(products) && !(price.Set? && price.value < 0.0) && categoryId.Set?
              && categoryId.value != old(products)[id].categoryId
              && CheckCategory(old(categories), categoryId.value).Some? ==>
        r == Err(CheckCategory(old(categories), categoryId.value).value)
        && unchanged(this, productTranslations)
      ensures id in old(products) && !(price.Set? && price.value < 0.0)
              && !(categoryId.Set? && categoryId.value != old(products)[id].categoryId
                   && CheckCategory(old(categories), categoryId.value).Some?) ==>
        var p := old(products)[id];
        var saved := SaveEntries(old(productTranslations.rows), id, translations.GetOr([]));
        && products == old(products)[id := p.(
             title := title.ApplyTo(p.title),
             description := description.ApplyTo(p.description),
             price := price.ApplyTo(p.price),
             image := if image.Some? then image else p.image,
             categoryId := categoryId.ApplyTo(p.categoryId),
             isActive := isActive.ApplyTo(p.isActive))]
        && productTranslations.rows == saved.rows
        && r == (if saved.complete then Ok(id) else Err(TranslationRejected))
    {
      if id !in products {
        return Err(NotFound);
      }
      var p := products[id];
      if price.Set? && price.value < 0.0 {
        return Err(InvalidPrice);
      }
      if categoryId.Set? && TruthyId(categoryId.value) && categoryId.value != p.categoryId {
        var k := categoryId.value.value;
        if k !in categories {
          return Err(CategoryNotFound);
        }
        if !categories[k].isActive {
          return Err(CategoryInactive);
        }
      }
      products := products[id := p.(
        title := title.ApplyTo(p.title),
        description := description.ApplyTo(p.description),
        price := price.ApplyTo(p.price),
        image := if image.Some? then image else p.image,
        categoryId := categoryId.ApplyTo(p.categoryId),
        isActive := isActive.ApplyTo(p.isActive))];
      r := SaveTranslations(productTranslations, id, translations);
    }

    /** `deleteProduct`: no dependency check; the cascade removes the
        product's translations. */
    method DeleteProduct(id: nat) returns (r: Result<nat, CatalogError>)
      requires Valid()
      modifies this, productTranslations
      ensures Valid()
      ensures unchanged(categoryTranslations) && categories == old(categories)
      ensures nextCategoryId == old(nextCategoryId) && nextProductId == old(nextProductId)
      ensures id !in old(products) ==> r == Err(NotFound) && unchanged(this, productTranslations)
      ensures id in old(products) ==>
        && r == Ok(id)
        && products == old(products) - {id}
        && productTranslations.rows == WithoutParent(old(productTranslations.rows), id)
    {
      if id !in products {
        return Err(NotFound);
      }
      products := products - {id};
      productTranslations.RemoveParent(id);
      r := Ok(id);
    }

    /** `activateProduct` and `deactivateProduct`. */
    method SetProductActive(id: nat, active: bool) returns (r: Result<nat, CatalogError>)
      requires Valid()
      modifies this
      ensures Valid()
      ensures unchanged(categoryTranslations) && unchanged(productTranslations)
      ensures categories == old(categories)
      ensures nextCategoryId == old(nextCategoryId) && nextProductId == old(nextProductId)
      ensures id !in old(products) ==> r == Err(NotFound) && products == old(products)
      ensures id in old(products) ==>
        r == Ok(id) && products == old(products)[id := old(products)[id].(isActive := active)]
    {
      if id !in products {
        return Err(NotFound);
      }
      products := products[id := products[id].(isActive := active)];
      r := Ok(id);
    }

    /** `incrementProductView`: the stored count goes up by exactly one and
        the reported count is the count read before the increment, plus one. */
    method IncrementView(id: nat) returns (r: Result<nat, CatalogError>)
      requires Valid()
      modifies this
      ensures Valid()
      ensures unchanged(categoryTranslations) && unchanged(productTranslations)
      ensures categories == old(categories)
      ensures nextCategoryId == old(nextCategoryId) && nextProductId == old(nextProductId)
      ensures id !in old(products) ==> r == Err(NotFound) && products == old(products)
      ensures id in old(products) ==>
        var p := old(products)[id];
        && r == Ok(p.viewCount + 1)
        && products == old(products)[id := p.(viewCount := p.viewCount + 1)]
    {
      if id !in products {
        return Err(NotFound);
      }
      var p := products[id];
      products := products[id := p.(viewCount := p.viewCount + 1)];
      r := Ok(p.viewCount + 1);
    }
  }
}
