/** The constant data of the photobook: the chapter (category) buttons and the
    bundled photo catalog. Only the fields that the logic looks at are kept:
    a photo's `id` and `category`, a chapter's `id`. */
module Catalog {

  /** One entry of the photo catalog. */
  datatype Photo = Photo(id: nat, category: string)

  /** One chapter button; its `id` is the value passed to the category handler. */
  datatype Category = Category(id: string)

  /** The synthetic chapter that means "no filter". */
  const AllCategory: string := "all"

  /** The chapter buttons, in the order they are shown. */
  const Categories: seq<Category> := [
    Category("all"),
    Category("sleepy"),
    Category("playing"),
    Category("eating"),
    Category("nature")
  ]

  /** The bundled catalog: two photos per real chapter, interleaved. */
  const Photos: seq<Photo> := [
    Photo(1, "sleepy"),
    Photo(2, "playing"),
    Photo(3, "eating"),
    Photo(4, "nature"),
    Photo(5, "sleepy"),
    Photo(6, "playing"),
    Photo(7, "eating"),
    Photo(8, "nature")
  ]

  /** The ids of the chapter buttons, in order. */
  function CategoryIds(cs: seq<Category>): (ids: seq<string>)
    ensures |ids| == |cs|
    ensures forall i :: 0 <= i < |cs| ==> ids[i] == cs[i].id
  {
    if cs == [] then [] else [cs[0].id] + CategoryIds(cs[1..])
  }

  /** No two elements of `s` are equal. */
  predicate Distinct<T(==)>(s: seq<T>)
  {
    forall i, j :: 0 <= i < j < |s| ==> s[i] != s[j]
  }

  /** The chapter ids are distinct, the first one is the "all" filter, and every
      photo of the bundled catalog belongs to one of the other chapters. */
  lemma CatalogWellFormed()
    ensures Distinct(CategoryIds(Categories))
    ensures Categories[0].id == AllCategory
    ensures Distinct(Photos)
    ensures forall p :: p in Photos ==>
              p.category != AllCategory && p.category in CategoryIds(Categories)
  {
  }
}
