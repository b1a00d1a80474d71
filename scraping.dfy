/** The data handling of the recipe scraper, once the HTML has been queried.

    Fetching a page and running a BeautifulSoup query are not modelled: a
    listing page is given as the anchors its article list holds (or `None`
    when the list is missing), and a recipe page as the results of the
    queries `get_info_recipe` runs on it. The random draw is an injected
    index that lies in the range `randint` promises.

    Line numbers in the comments below refer to
    `backend/app/database/scraping.py`.
 */
module Scraping {
  import opened Results
  import opened PyStr
  import opened Dicts

  /* ---------------------------------------------------------------------
     Listing pages: theme table and random pick
     --------------------------------------------------------------------- */

  /** The listing page of every theme. */
  const RecipeTheme: map<string, string> := map[
    "dessert" := "https://www.allrecipes.com/recipes/79/desserts/",
    "breakfast" := "https://www.allrecipes.com/recipes/78/breakfast-and-brunch/",
    "lunch" := "https://www.allrecipes.com/recipes/17561/lunch/",
    "healthy" := "https://www.allrecipes.com/recipes/84/healthy-recipes/",
    "appetizer" := "https://www.allrecipes.com/recipes/76/appetizers-and-snacks/",
    "salad" := "https://www.allrecipes.com/recipes/96/salad/",
    "drink" := "https://www.allrecipes.com/recipes/77/drinks/"
  ]

  /** `RECIPE_THEME[theme]`: the listing page of a theme; any other name is a `KeyError`. */
  function ThemeUrl(theme: string): (r: Result<string>)
    ensures r.Ok? <==> theme in {"dessert", "breakfast", "lunch", "healthy", "appetizer", "salad", "drink"}
    ensures r.Err? ==> r.error == KeyError(theme)
  {
    if theme in RecipeTheme then Ok(RecipeTheme[theme]) else Err(KeyError(theme))
  }

  /** The table is one-to-one: two themes never share a listing page. */
  lemma ThemeUrlsDistinct(t1: string, t2: string)
    requires ThemeUrl(t1).Ok? && ThemeUrl(t2).Ok? && t1 != t2
    ensures ThemeUrl(t1).value != ThemeUrl(t2).value
  {
  }

  /** An `<a>` tag of the article list, with its attributes. */
  datatype Anchor = Anchor(attrs: map<string, string>)

  /** The `href` values among the anchors. */
  function Hrefs(anchors: seq<Anchor>): set<string> {
    set a | a in anchors && "href" in a.attrs :: a.attrs["href"]
  }

  /** `randint(0, len(anchors) - 1)` returned `n`: when the range is not empty,
      `n` lies in it. */
  predicate DrawInRange(anchors: seq<Anchor>, n: int) {
    anchors != [] ==> 0 <= n < |anchors|
  }

  /** Lines 34-35: draw an index, then read that anchor's `href`. */
  function PickRecipe(anchors: seq<Anchor>, n: int): (r: Result<string>)
    requires DrawInRange(anchors, n)
    ensures anchors == [] <==> r == Err(EmptyRange)
    ensures r.Ok? ==> "href" in anchors[n].attrs && r.value == anchors[n].attrs["href"]
    ensures anchors != [] && "href" in anchors[n].attrs ==> r == Ok(anchors[n].attrs["href"])
    ensures anchors != [] && "href" !in anchors[n].attrs ==> r == Err(KeyError("href"))
  {
    if anchors == [] then Err(EmptyRange)
    else if "href" in anchors[n].attrs then Ok(anchors[n].attrs["href"])
    else Err(KeyError("href"))
  }

  /** The draw the caller injects fits the anchors found on the theme's page. */
  predicate DrawFits(theme: string, listing: string -> Option<seq<Anchor>>, n: int) {
    ThemeUrl(theme).Ok? && listing(ThemeUrl(theme).value).Some? ==>
      DrawInRange(listing(ThemeUrl(theme).value).value, n)
  }

  /** `get_random_recipe`: look the theme up, take the anchors of the article
      list on its listing page (`listing` stands for the fetch and the
      `select_one` / `find_all` queries) and return the `href` of the drawn one. */
  function GetRandomRecipe(theme: string, listing: string -> Option<seq<Anchor>>, n: int): (r: Result<string>)
    requires DrawFits(theme, listing, n)
    ensures ThemeUrl(theme).Err? ==> r == Err(KeyError(theme))
    ensures ThemeUrl(theme).Ok? && listing(ThemeUrl(theme).value).None? ==>
      r == Err(AttributeError(ListingContainer))
    ensures ThemeUrl(theme).Ok? && listing(ThemeUrl(theme).value) == Some([]) ==> r == Err(EmptyRange)
    ensures r.Ok? ==>
      ThemeUrl(theme).Ok? && listing(ThemeUrl(theme).value).Some? &&
      r.value in Hrefs(listing(ThemeUrl(theme).value).value)
    ensures (ThemeUrl(theme).Ok? && listing(ThemeUrl(theme).value).Some? &&
             listing(ThemeUrl(theme).value).value != []) ==>
      var drawn := listing(ThemeUrl(theme).value).value[n];
      r == if "href" in drawn.attrs then Ok(drawn.attrs["href"]) else Err(KeyError("href"))
  {
    match ThemeUrl(theme)
    case Err(e) => Err(e)
    case Ok(url) =>
      match listing(url)
      case None => Err(AttributeError(ListingContainer))
      case Some(recipes) => PickRecipe(recipes, n)
  }

  /** An unknown theme fails before any page is fetched: the listing pages
      play no part in the outcome. */
  lemma UnknownThemeNoFetch(theme: string, l1: string -> Option<seq<Anchor>>, l2: string -> Option<seq<Anchor>>, n: int)
    requires ThemeUrl(theme).Err?
    ensures GetRandomRecipe(theme, l1, n) == GetRandomRecipe(theme, l2, n) == Err(KeyError(theme))
  {
  }

  /** Every anchor of a known theme's list can be the one returned: the draw
      that picks it returns its `href`. */
  lemma EveryAnchorReachable(theme: string, listing: string -> Option<seq<Anchor>>, i: int)
    requires ThemeUrl(theme).Ok? && listing(ThemeUrl(theme).value).Some?
    requires 0 <= i < |listing(ThemeUrl(theme).value).value|
    requires "href" in listing(ThemeUrl(theme).value).value[i].attrs
    ensures GetRandomRecipe(theme, listing, i) == Ok(listing(ThemeUrl(theme).value).value[i].attrs["href"])
  {
  }

  /* ---------------------------------------------------------------------
     Recipe pages: record assembly
     --------------------------------------------------------------------- */

  /** A `.mntl-recipe-details__item`: the text of its label and of its value
      sub-element, `None` when that sub-element is missing. */
  datatype DetailItem = DetailItem(labelText: Option<string>, valueText: Option<string>)

  /** What the queries of `get_info_recipe` find on a recipe page. */
  datatype RecipePage = RecipePage(
    h1: Option<string>,                  // text of the first `h1`
    subheading: Option<string>,          // text of `#article-subheading_1-0`
    details: Option<seq<DetailItem>>,    // items of `div.mntl-recipe-details__content`
    nutrition: Option<seq<seq<string>>>  // `td` texts of each row of the nutrition table body
  )

  /** The dict `get_info_recipe` returns: its four keys `title`, `header`,
      `info_recipe` and `nutrition` are the four fields. */
  datatype RecipeInfo = RecipeInfo(
    title: string,
    header: string,
    infoRecipe: map<string, string>,
    nutrition: map<string, string>
  )

  /** Both sub-elements of a details item are present. */
  predicate Complete(item: DetailItem) {
    item.labelText.Some? && item.valueText.Some?
  }

  /** Lines 58-59: the label, then the value, each without its last character. */
  function DetailEntry(item: DetailItem): Result<Entry> {
    if item.labelText.None? then Err(AttributeError(DetailLabel))
    else if item.valueText.None? then Err(AttributeError(DetailValue))
    else Ok((DropLast(item.labelText.value), DropLast(item.valueText.value)))
  }

  /** Line 69: the stripped second cell is the key, the stripped first cell the value. */
  function NutritionEntry(tds: seq<string>): Result<Entry> {
    if |tds| < 2 then Err(IndexError) else Ok((Strip(tds[1]), Strip(tds[0])))
  }

  /** The `info_recipe` dict lines 56-60 build, or the error that ends them. */
  function DetailsOf(items: seq<DetailItem>): Result<map<string, string>> {
    AssembleAll(Traverse(items, DetailEntry))
  }

  /** The `nutrition` dict lines 66-69 build, or the error that ends them. */
  function NutritionOf(rows: seq<seq<string>>): Result<map<string, string>> {
    AssembleAll(Traverse(rows, NutritionEntry))
  }

  /** `get_info_recipe` on the query results of a page. */
  function InfoRecipe(page: RecipePage): Result<RecipeInfo> {
    if page.h1.None? then Err(AttributeError(Title))
    else if page.subheading.None? then Err(AttributeError(Subheading))
    else if page.details.None? then Err(AttributeError(DetailsContainer))
    else match DetailsOf(page.details.value)
      case Err(e) => Err(e)
      case Ok(infoRecipe) =>
        if page.nutrition.None? then Err(AttributeError(NutritionTable))
        else match NutritionOf(page.nutrition.value)
          case Err(e) => Err(e)
          case Ok(nutrition) =>
            Ok(RecipeInfo(Strip(page.h1.value), Strip(page.subheading.value), infoRecipe, nutrition))
  }

  /** The details loop of lines 56-60. */
  method CollectDetails(items: seq<DetailItem>) returns (r: Result<map<string, string>>)
    ensures r == DetailsOf(items)
  {
    var infoRecipe: map<string, string> := map[];
    for i := 0 to |items|
      invariant Traverse(items[..i], DetailEntry).Ok?
      invariant infoRecipe == Assemble(Traverse(items[..i], DetailEntry).value)
    {
      TraverseStep(items, i, DetailEntry);
      var item := items[i];
      if item.labelText.None? {
        TraversePrefixError(items, i + 1, DetailEntry);
        return Err(AttributeError(DetailLabel));
      }
      var key := DropLast(item.labelText.value);
      if item.valueText.None? {
        TraversePrefixError(items, i + 1, DetailEntry);
        return Err(AttributeError(DetailValue));
      }
      var val := DropLast(item.valueText.value);
      ghost var done := Traverse(items[..i], DetailEntry).value;
      assert (done + [(key, val)])[..|done|] == done;
      infoRecipe := infoRecipe[key := val];
    }
    assert items[..|items|] == items;
    return Ok(infoRecipe);
  }

  /** The nutrition loop of lines 66-69. */
  method CollectNutrition(rows: seq<seq<string>>) returns (r: Result<map<string, string>>)
    ensures r == NutritionOf(rows)
  {
    var nutrition: map<string, string> := map[];
    for i := 0 to |rows|
      invariant Traverse(rows[..i], NutritionEntry).Ok?
      invariant nutrition == Assemble(Traverse(rows[..i], NutritionEntry).value)
    {
      TraverseStep(rows, i, NutritionEntry);
      var tds := rows[i];
      if |tds| < 2 {
        TraversePrefixError(rows, i + 1, NutritionEntry);
        return Err(IndexError);
      }
      var amount := Strip(tds[0]);
      var name := Strip(tds[1]);
      ghost var done := Traverse(rows[..i], NutritionEntry).value;
      assert (done + [(name, amount)])[..|done|] == done;
      nutrition := nutrition[name := amount];
    }
    assert rows[..|rows|] == rows;
    return Ok(nutrition);
  }

  /** `get_info_recipe` (lines 49-76), in the order the source runs its queries. */
  method GetInfoRecipe(page: RecipePage) returns (r: Result<RecipeInfo>)
    ensures r == InfoRecipe(page)
    ensures r.Ok? ==> NoEdgeSpace(r.value.title) && NoEdgeSpace(r.value.header)
  {
    if page.h1.None? {
      return Err(AttributeError(Title));
    }
    var title := Strip(page.h1.value);
    if page.subheading.None? {
      return Err(AttributeError(Subheading));
    }
    var header := Strip(page.subheading.value);
    if page.details.None? {
      return Err(AttributeError(DetailsContainer));
    }
    var infoRecipe := CollectDetails(page.details.value);
    if infoRecipe.Err? {
      return Err(infoRecipe.error);
    }
    if page.nutrition.None? {
      return Err(AttributeError(NutritionTable));
    }
    var nutrition := CollectNutrition(page.nutrition.value);
    if nutrition.Err? {
      return Err(nutrition.error);
    }
    return Ok(RecipeInfo(title, header, infoRecipe.value, nutrition.value));
  }

  /* ---------------------------------------------------------------------
     Properties of the details dict
     --------------------------------------------------------------------- */

  /** The details loop completes exactly when every item has both
      sub-elements. */
  lemma DetailsOk(items: seq<DetailItem>)
    ensures DetailsOf(items).Ok? <==> forall i :: 0 <= i < |items| ==> Complete(items[i])
  {
    TraverseOk(items, DetailEntry);
  }

  /** The keys of a completed details dict are exactly the labels without
      their last character, and there are no more of them than items. */
  lemma DetailsKeys(items: seq<DetailItem>)
    requires forall i :: 0 <= i < |items| ==> items[i].labelText.Some? && items[i].valueText.Some?
    ensures DetailsOf(items).Ok?
    ensures DetailsOf(items).value.Keys == (set i | 0 <= i < |items| :: DropLast(items[i].labelText.value))
    ensures |DetailsOf(items).value| <= |items|
  {
    TraverseOk(items, DetailEntry);
    var es := Traverse(items, DetailEntry).value;
    AssembleKeys(es);
    AssembleSize(es);
    assert (set i | 0 <= i < |es| :: es[i].0) == (set i | 0 <= i < |items| :: DropLast(items[i].labelText.value)) by {
      forall i | 0 <= i < |items| ensures es[i].0 == DropLast(items[i].labelText.value) { }
    }
  }

  /** Where several items share a label, the dict holds the value of the
      last of them, without its last character. */
  lemma DetailsLastWins(items: seq<DetailItem>, j: int)
    requires forall i :: 0 <= i < |items| ==> items[i].labelText.Some? && items[i].valueText.Some?
    requires 0 <= j < |items|
    requires forall i :: j < i < |items| ==> DropLast(items[i].labelText.value) != DropLast(items[j].labelText.value)
    ensures DetailsOf(items).Ok?
    ensures DropLast(items[j].labelText.value) in DetailsOf(items).value
    ensures DetailsOf(items).value[DropLast(items[j].labelText.value)] == DropLast(items[j].valueText.value)
  {
    TraverseOk(items, DetailEntry);
    var es := Traverse(items, DetailEntry).value;
    AssembleLastWins(es, j, DropLast(items[j].labelText.value));
  }

  /** Every entry of a completed details dict comes from the last item
      carrying its key: the key is that item's label and the value is that
      item's value, each without the last character. */
  lemma DetailsEntryOrigin(items: seq<DetailItem>, k: string)
    requires DetailsOf(items).Ok? && k in DetailsOf(items).value
    ensures exists j :: 0 <= j < |items| && Complete(items[j]) &&
                        DropLast(items[j].labelText.value) == k &&
                        DetailsOf(items).value[k] == DropLast(items[j].valueText.value) &&
                        (forall i :: j < i < |items| ==> Complete(items[i]) && DropLast(items[i].labelText.value) != k)
  {
    TraverseOk(items, DetailEntry);
    var es := Traverse(items, DetailEntry).value;
    AssembleHasLastWrite(es, k);
    var j :| IsLastWrite(es, j, k);
    AssembleLastWins(es, j, k);
    assert DetailEntry(items[j]).Ok? && es[j] == DetailEntry(items[j]).value;
    forall i | j < i < |items| ensures Complete(items[i]) && DropLast(items[i].labelText.value) != k {
      assert DetailEntry(items[i]).Ok? && es[i] == DetailEntry(items[i]).value;
    }
  }

  /** The loop leaves an entry stored for the first `i` items as it is
      unless a later item stores the same key, and such a key is in the final
      dict only if those items stored it. */
  lemma DetailsPrefixSurvives(items: seq<DetailItem>, i: nat, k: string)
    requires forall j :: 0 <= j < |items| ==> items[j].labelText.Some? && items[j].valueText.Some?
    requires i <= |items|
    requires forall j :: i <= j < |items| ==> DropLast(items[j].labelText.value) != k
    ensures DetailsOf(items[..i]).Ok? && DetailsOf(items).Ok?
    ensures k in DetailsOf(items).value <==> k in DetailsOf(items[..i]).value
    ensures k in DetailsOf(items).value ==> DetailsOf(items).value[k] == DetailsOf(items[..i]).value[k]
  {
    TraverseOk(items, DetailEntry);
    TraversePrefixOk(items, i, DetailEntry);
    AssembleKeepsEarlier(Traverse(items, DetailEntry).value, i, k);
  }

  /** The first item missing a sub-element decides the error: a missing
      label is reported before a missing value. */
  lemma DetailsFirstError(items: seq<DetailItem>)
    requires DetailsOf(items).Err?
    ensures exists i :: 0 <= i < |items| && !Complete(items[i]) &&
                        (forall j :: 0 <= j < i ==> Complete(items[j])) &&
                        DetailsOf(items).error ==
                          AttributeError(if items[i].labelText.None? then DetailLabel else DetailValue)
  {
    TraverseFirstError(items, DetailEntry);
  }

  /* ---------------------------------------------------------------------
     Properties of the nutrition dict
     --------------------------------------------------------------------- */

  /** The nutrition loop completes exactly when every row has at least two
      cells; otherwise it fails with an `IndexError`. */
  lemma NutritionOk(rows: seq<seq<string>>)
    ensures NutritionOf(rows).Ok? <==> forall i :: 0 <= i < |rows| ==> |rows[i]| >= 2
    ensures NutritionOf(rows).Err? ==> NutritionOf(rows).error == IndexError
  {
    TraverseOk(rows, NutritionEntry);
    if NutritionOf(rows).Err? {
      TraverseFirstError(rows, NutritionEntry);
    }
  }

  /** The keys of a completed nutrition dict are exactly the stripped second
      cells, and there are no more of them than rows. */
  lemma NutritionKeys(rows: seq<seq<string>>)
    requires forall i :: 0 <= i < |rows| ==> |rows[i]| >= 2
    ensures NutritionOf(rows).Ok?
    ensures NutritionOf(rows).value.Keys == (set i | 0 <= i < |rows| :: Strip(rows[i][1]))
    ensures |NutritionOf(rows).value| <= |rows|
  {
    TraverseOk(rows, NutritionEntry);
    var es := Traverse(rows, NutritionEntry).value;
    AssembleKeys(es);
    AssembleSize(es);
    forall i | 0 <= i < |rows| ensures es[i].0 == Strip(rows[i][1]) {
      assert es[i] == NutritionEntry(rows[i]).value;
    }
    NutritionNames(rows, es);
  }

  /** Entries keyed by the stripped second cells have those cells as their keys. */
  lemma NutritionNames(rows: seq<seq<string>>, es: seq<Entry>)
    requires |es| == |rows|
    requires forall i :: 0 <= i < |rows| ==> |rows[i]| >= 2 && es[i].0 == Strip(rows[i][1])
    ensures (set i | 0 <= i < |es| :: es[i].0) == (set i | 0 <= i < |rows| :: Strip(rows[i][1]))
  {
    var stored := set i | 0 <= i < |es| :: es[i].0;
    var names := set i | 0 <= i < |rows| :: Strip(rows[i][1]);
    forall k | k in stored ensures k in names {
      var i :| 0 <= i < |es| && es[i].0 == k;
    }
    forall k | k in names ensures k in stored {
      var i :| 0 <= i < |rows| && Strip(rows[i][1]) == k;
    }
  }

  /** The columns are swapped: the stripped second cell of a row maps to its
      stripped first cell, unless a later row has the same second cell. */
  lemma NutritionSwapsColumns(rows: seq<seq<string>>, j: int)
    requires forall i :: 0 <= i < |rows| ==> |rows[i]| >= 2
    requires 0 <= j < |rows|
    requires forall i :: j < i < |rows| ==> Strip(rows[i][1]) != Strip(rows[j][1])
    ensures NutritionOf(rows).Ok?
    ensures Strip(rows[j][1]) in NutritionOf(rows).value
    ensures NutritionOf(rows).value[Strip(rows[j][1])] == Strip(rows[j][0])
  {
    TraverseOk(rows, NutritionEntry);
    var es := Traverse(rows, NutritionEntry).value;
    AssembleLastWins(es, j, Strip(rows[j][1]));
  }

  /** Every entry of a completed nutrition dict comes from the last row
      carrying its key: the stripped second cell is the key and the stripped
      first cell of the same row the value. */
  lemma NutritionEntryOrigin(rows: seq<seq<string>>, k: string)
    requires NutritionOf(rows).Ok? && k in NutritionOf(rows).value
    ensures exists j :: 0 <= j < |rows| && |rows[j]| >= 2 &&
                        Strip(rows[j][1]) == k && NutritionOf(rows).value[k] == Strip(rows[j][0]) &&
                        (forall i :: j < i < |rows| ==> |rows[i]| >= 2 && Strip(rows[i][1]) != k)
  {
    TraverseOk(rows, NutritionEntry);
    var es := Traverse(rows, NutritionEntry).value;
    AssembleHasLastWrite(es, k);
    var j :| IsLastWrite(es, j, k);
    AssembleLastWins(es, j, k);
    assert NutritionEntry(rows[j]).Ok? && es[j] == NutritionEntry(rows[j]).value;
    forall i | j < i < |rows| ensures |rows[i]| >= 2 && Strip(rows[i][1]) != k {
      assert NutritionEntry(rows[i]).Ok? && es[i] == NutritionEntry(rows[i]).value;
    }
    assert 0 <= j < |rows| && |rows[j]| >= 2 && Strip(rows[j][1]) == k &&
           NutritionOf(rows).value[k] == Strip(rows[j][0]);
  }

  /** The loop leaves an entry stored for the first `i` rows as it is
      unless a later row stores the same key, and such a key is in the final
      dict only if those rows stored it. */
  lemma NutritionPrefixSurvives(rows: seq<seq<string>>, i: nat, k: string)
    requires forall j :: 0 <= j < |rows| ==> |rows[j]| >= 2
    requires i <= |rows|
    requires forall j :: i <= j < |rows| ==> Strip(rows[j][1]) != k
    ensures NutritionOf(rows[..i]).Ok? && NutritionOf(rows).Ok?
    ensures k in NutritionOf(rows).value <==> k in NutritionOf(rows[..i]).value
    ensures k in NutritionOf(rows).value ==> NutritionOf(rows).value[k] == NutritionOf(rows[..i]).value[k]
  {
    TraverseOk(rows, NutritionEntry);
    TraversePrefixOk(rows, i, NutritionEntry);
    AssembleKeepsEarlier(Traverse(rows, NutritionEntry).value, i, k);
  }

  /* ---------------------------------------------------------------------
     Properties of the whole record
     --------------------------------------------------------------------- */

  /** Every query finds its element, every details item is complete and
      every nutrition row has two cells. */
  predicate WellFormed(page: RecipePage) {
    page.h1.Some? && page.subheading.Some? && page.details.Some? && page.nutrition.Some? &&
    (forall i :: 0 <= i < |page.details.value| ==> Complete(page.details.value[i])) &&
    (forall i :: 0 <= i < |page.nutrition.value| ==> |page.nutrition.value[i]| >= 2)
  }

  /** A record is returned exactly for well-formed pages; its title and header
      are the stripped texts and its two dicts are those the loops build. */
  lemma InfoRecipeOk(page: RecipePage)
    ensures InfoRecipe(page).Ok? <==> WellFormed(page)
    ensures InfoRecipe(page).Ok? ==>
      InfoRecipe(page).value.title == Strip(page.h1.value) &&
      NoEdgeSpace(InfoRecipe(page).value.title) &&
      InfoRecipe(page).value.header == Strip(page.subheading.value) &&
      NoEdgeSpace(InfoRecipe(page).value.header) &&
      Ok(InfoRecipe(page).value.infoRecipe) == DetailsOf(page.details.value) &&
      Ok(InfoRecipe(page).value.nutrition) == NutritionOf(page.nutrition.value)
  {
    if page.details.Some? {
      DetailsOk(page.details.value);
    }
    if page.nutrition.Some? {
      NutritionOk(page.nutrition.value);
    }
  }

  /** A details item missing its label or its value aborts the whole
      extraction: no record is returned, not even one without that item. */
  lemma IncompleteDetailAborts(page: RecipePage, i: int)
    requires page.details.Some? && 0 <= i < |page.details.value|
    requires !Complete(page.details.value[i])
    ensures InfoRecipe(page).Err?
  {
    InfoRecipeOk(page);
  }

  /** A nutrition row with fewer than two cells aborts the whole extraction. */
  lemma ShortRowAborts(page: RecipePage, i: int)
    requires page.nutrition.Some? && 0 <= i < |page.nutrition.value|
    requires |page.nutrition.value[i]| < 2
    ensures InfoRecipe(page).Err?
  {
    InfoRecipeOk(page);
  }

  /** A page whose other parts are fine but which has no nutrition table
      fails at the nutrition step. */
  lemma MissingNutritionTable(page: RecipePage)
    requires page.h1.Some? && page.subheading.Some? && page.details.Some?
    requires forall i :: 0 <= i < |page.details.value| ==> Complete(page.details.value[i])
    requires page.nutrition.None?
    ensures InfoRecipe(page) == Err(AttributeError(NutritionTable))
  {
    DetailsOk(page.details.value);
  }

  /** The entries the details loop computes for the example items. */
  lemma ExampleDetailEntries()
    ensures Traverse([DetailItem(Some("Prep Time:"), Some("15 mins:")),
                      DetailItem(Some("Servings:"), Some("12:")),
                      DetailItem(Some("Servings:"), Some("16:"))], DetailEntry)
      == Ok([("Prep Time", "15 mins"), ("Servings", "12"), ("Servings", "16")])
  {
    var items := [DetailItem(Some("Prep Time:"), Some("15 mins:")),
                  DetailItem(Some("Servings:"), Some("12:")),
                  DetailItem(Some("Servings:"), Some("16:"))];
    var es := [("Prep Time", "15 mins"), ("Servings", "12"), ("Servings", "16")];
    assert DropLast("Prep Time:") == "Prep Time";
    assert DropLast("15 mins:") == "15 mins";
    assert DropLast("Servings:") == "Servings";
    assert DropLast("12:") == "12";
    assert DropLast("16:") == "16";
    assert DetailEntry(items[0]) == Ok(es[0]);
    assert DetailEntry(items[1]) == Ok(es[1]);
    assert DetailEntry(items[2]) == Ok(es[2]);
    TraverseOk(items, DetailEntry);
    assert Traverse(items, DetailEntry).value == es;
  }

  /** The dict the example entries build: the later `Servings` store wins. */
  lemma ExampleDetailStores()
    ensures Assemble([("Prep Time", "15 mins"), ("Servings", "12"), ("Servings", "16")])
      == map["Prep Time" := "15 mins", "Servings" := "16"]
  {
    var es := [("Prep Time", "15 mins"), ("Servings", "12"), ("Servings", "16")];
    assert es[..1][..0] == [];
    assert Assemble(es[..1]) == map["Prep Time" := "15 mins"];
    assert es[..2][..1] == es[..1];
    assert Assemble(es[..2]) == map["Prep Time" := "15 mins", "Servings" := "12"];
    assert es[..2] == es[..|es| - 1];
    assert Assemble(es) == Assemble(es[..2])["Servings" := "16"];
  }

  /** The details of a page as the recipe site lays it out: the colon after
      each label and value is cut off, and the later of two `Servings` items
      wins. */
  lemma ExampleDetails()
    ensures DetailsOf([DetailItem(Some("Prep Time:"), Some("15 mins:")),
                       DetailItem(Some("Servings:"), Some("12:")),
                       DetailItem(Some("Servings:"), Some("16:"))])
      == Ok(map["Prep Time" := "15 mins", "Servings" := "16"])
  {
    ExampleDetailEntries();
    ExampleDetailStores();
  }

  /** `strip()` on the padded texts of the example page. */
  lemma ExampleTitleText()
    ensures Strip("\n Brownies\n") == "Brownies"
  {
    StripUnique("\n ", "Brownies", "\n");
    assert "\n " + "Brownies" + "\n" == "\n Brownies\n";
  }

  lemma ExampleHeaderText()
    ensures Strip("Rich. ") == "Rich."
  {
    StripUnique("", "Rich.", " ");
    assert "" + "Rich." + " " == "Rich. ";
  }

  lemma ExampleNameText()
    ensures Strip(" Calories ") == "Calories"
  {
    StripUnique(" ", "Calories", " ");
    assert " " + "Calories" + " " == " Calories ";
  }

  lemma ExampleAmountTexts()
    ensures Strip("250") == "250" && Strip("12g") == "12g"
  {
    StripTrimmed("250");
    StripTrimmed("12g");
  }

  /** The nutrition table of such a page: the cells are stripped and the
      columns change places. */
  lemma ExampleNutrition()
    ensures NutritionOf([["250", " Calories "], ["12g", "Fat"]])
      == Ok(map["Calories" := "250", "Fat" := "12g"])
  {
    var rows := [["250", " Calories "], ["12g", "Fat"]];
    var es := [("Calories", "250"), ("Fat", "12g")];
    ExampleNameText();
    ExampleAmountTexts();
    StripTrimmed("Fat");
    assert NutritionEntry(rows[0]) == Ok(es[0]);
    assert NutritionEntry(rows[1]) == Ok(es[1]);
    TraverseOk(rows, NutritionEntry);
    assert Traverse(rows, NutritionEntry).value == es;
    assert es[..1][..0] == [];
    assert Assemble(es[..1]) == map["Calories" := "250"];
    assert es[..1] == es[..|es| - 1];
    assert Assemble(es) == map["Calories" := "250", "Fat" := "12g"];
    assert NutritionOf(rows) == Ok(Assemble(es));
  }

  /** The whole record of such a page. */
  lemma ExamplePage()
    ensures InfoRecipe(RecipePage(
      Some("\n Brownies\n"),
      Some("Rich. "),
      Some([DetailItem(Some("Prep Time:"), Some("15 mins:")),
            DetailItem(Some("Servings:"), Some("12:")),
            DetailItem(Some("Servings:"), Some("16:"))]),
      Some([["250", " Calories "], ["12g", "Fat"]])))
      == Ok(RecipeInfo(
        "Brownies",
        "Rich.",
        map["Prep Time" := "15 mins", "Servings" := "16"],
        map["Calories" := "250", "Fat" := "12g"]))
  {
    ExampleDetails();
    ExampleNutrition();
    ExampleTitleText();
    ExampleHeaderText();
  }
}
