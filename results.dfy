/** Values and failures shared by the scraper model.

    The scraper never catches anything: every failure is a Python exception
    that ends the call. The model returns a `Result` instead, and `Error`
    names the exception and, for the `None`-dereferences, which query found
    nothing.
 */
module Results {

  /** A DOM query that may find nothing (`find` / `select_one` returning `None`). */
  datatype Option<T> = None | Some(value: T)

  /** The query whose `None` result was then dereferenced. */
  datatype Step =
    | ListingContainer   // `element.find_all` on the listing page's article list
    | Title              // `.text` on the page's first `h1`
    | Subheading         // `.text` on the `#article-subheading_1-0` element
    | DetailsContainer   // `.find_all` on the recipe-details content block
    | DetailLabel        // `.text` on a details item's label
    | DetailValue        // `.text` on a details item's value
    | NutritionTable     // `.find_all` on the nutrition-summary table body

  /** The exceptions the scraper can raise once its inputs are fixed. */
  datatype Error =
    | KeyError(key: string)        // dict lookup or tag-attribute lookup of a missing key
    | EmptyRange                   // `randint(0, -1)`: there is no anchor to choose
    | AttributeError(step: Step)   // an attribute of the `None` a query returned
    | IndexError                   // `tds[1]` (or `tds[0]`) on a row with fewer than two cells

  datatype Result<T> = Ok(value: T) | Err(error: Error)
}
