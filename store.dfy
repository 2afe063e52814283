/**
 * The page's global quote list and the two localStorage items it uses,
 * with the operations that change them: loading at start-up, adding a
 * quote from the form, importing a parsed file, and saving the selected
 * category; plus the read-only choice of the quote to display.
 */
module Store {
  import opened Wrappers
  import opened JsString
  import opened Quotes

  class QuoteStore {
    /** The global `quotes` array. */
    var quotes: seq<Quote>
    /** The parsed "quotes" item of localStorage (None while it is absent). */
    ghost var persisted: Option<seq<Quote>>
    /** The "selectedCategory" item of localStorage (None while it is absent). */
    var selectedCategory: Option<string>

    /** Storage mirrors the list, or has not been written yet and the list
        is still the untouched seed. */
    ghost predicate Valid()
      reads this
    {
      persisted == Some(quotes) || (persisted == None && quotes == Seed)
    }

    /** Page load: the stored list if there is one, the seed otherwise. The
        seed is not written back to storage at this point. */
    constructor (storedQuotes: Option<seq<Quote>>, storedCategory: Option<string>)
      ensures Valid()
      ensures quotes == InitialQuotes(storedQuotes)
      ensures persisted == storedQuotes && selectedCategory == storedCategory
    {
      quotes := InitialQuotes(storedQuotes);
      persisted := storedQuotes;
      selectedCategory := storedCategory;
    }

    /** saveQuotes: the whole list replaces the stored item. */
    method SaveQuotes()
      modifies this`persisted
      ensures persisted == Some(quotes)
    {
      persisted := Some(quotes);
    }

    /**
     * addQuote: both inputs are trimmed; if either is then empty nothing
     * changes, otherwise the record is appended and the list saved.
     */
    method AddQuote(text: string, category: string) returns (added: bool)
      requires Valid()
      modifies this`quotes, this`persisted
      ensures Valid()
      ensures added <==> !WhitespaceOnly(text) && !WhitespaceOnly(category)
      ensures !added ==> quotes == old(quotes) && persisted == old(persisted)
      ensures added ==> quotes == old(quotes) + [Quote(Trim(text), Trim(category))]
      ensures added ==> persisted == Some(quotes) && WellFormed(quotes[|quotes| - 1])
      ensures added ==> quotes[|quotes| - 1] in Filtered(quotes, Some(Trim(category)))
      ensures CategoriesExtend(old(quotes), quotes)
    {
      var newText := Trim(text);
      var newCategory := Trim(category);
      TrimEmptyIff(text);
      TrimEmptyIff(category);
      if newText == "" || newCategory == "" {
        added := false;
        CategoriesGrow(quotes, []);
        assert quotes + [] == quotes;
        return;
      }
      var q := Quote(newText, newCategory);
      CategoriesGrow(quotes, [q]);
      AddedQuoteListed(quotes, q);
      quotes := quotes + [q];
      SaveQuotes();
      added := true;
    }

    /** The merge step of importFromJsonFile: every parsed record is
        appended, in order and without any check, and the list saved. */
    method ImportQuotes(imported: seq<Quote>)
      requires Valid()
      modifies this`quotes, this`persisted
      ensures Valid()
      ensures quotes == old(quotes) + imported
      ensures |quotes| == |old(quotes)| + |imported| && quotes[..|old(quotes)|] == old(quotes)
      ensures persisted == Some(quotes)
      ensures CategoriesExtend(old(quotes), quotes)
    {
      CategoriesGrow(quotes, imported);
      quotes := quotes + imported;
      SaveQuotes();
    }

    /** The records exportToJsonFile writes out: the whole list. */
    function ExportedQuotes(): seq<Quote>
      reads this
    {
      quotes
    }

    /** showRandomQuote given the index its random draw produced. */
    method ShowRandomQuote(randomIndex: nat) returns (d: Display)
      requires Filtered(quotes, selectedCategory) != [] ==> randomIndex < |Filtered(quotes, selectedCategory)|
      ensures d == PickQuote(Filtered(quotes, selectedCategory), randomIndex)
      ensures d == NoQuotesFound <==> Filtered(quotes, selectedCategory) == []
    {
      d := PickQuote(Filtered(quotes, selectedCategory), randomIndex);
    }

    /** filterQuotes: the chosen category is saved, then a quote of it is
        shown. */
    method FilterQuotes(selected: string, randomIndex: nat) returns (d: Display)
      requires Filtered(quotes, Some(selected)) != [] ==> randomIndex < |Filtered(quotes, Some(selected))|
      modifies this`selectedCategory
      ensures selectedCategory == Some(selected)
      ensures d == PickQuote(Filtered(quotes, Some(selected)), randomIndex)
    {
      selectedCategory := Some(selected);
      d := ShowRandomQuote(randomIndex);
    }
  }

  /** Exporting a store's list and importing the file into a page whose
      storage holds an empty list gives back the same records, in order. */
  method ExportImportRoundTrip(source: QuoteStore) returns (restored: seq<Quote>)
    ensures restored == source.quotes
  {
    var document := source.ExportedQuotes();
    var target := new QuoteStore(Some([]), None);
    target.ImportQuotes(document);
    restored := target.quotes;
  }
}
