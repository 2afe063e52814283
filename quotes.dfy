/**
 * The quote records and the pure logic around them: the seed list used
 * when nothing is stored, the category list the dropdown is built from,
 * the category filter, and the choice of the quote to display.
 */
module Quotes {
  import opened Wrappers
  import opened JsString
  import opened Sequences

  /** One `{ text, category }` record. */
  datatype Quote = Quote(text: string, category: string)

  /** The six records installed when no list is stored. */
  const Seed: seq<Quote> := [
    Quote("The only limit to our realization of tomorrow is our doubts of today.", "Inspiration"),
    Quote("In the middle of every difficulty lies opportunity.", "Motivation"),
    Quote("Life is 10% what happens to us and 90% how we react to it.", "Attitude"),
    Quote("The best way to predict the future is to create it.", "Future"),
    Quote("You miss 100% of the shots you don't take.", "Courage"),
    Quote("To be yourself in a world that is constantly trying to make you something else is the greatest accomplishment.", "Individuality")
  ]

  /** A record as the add form creates it: both fields trimmed and non-empty. */
  ghost predicate WellFormed(q: Quote)
  {
    q.text != "" && q.category != "" && IsTrimmed(q.text) && IsTrimmed(q.category)
  }

  /**
   * The list the page starts with, given the parsed value of the stored
   * "quotes" item (None when the item is missing). Any stored array,
   * even an empty one, is truthy and is kept; only a missing item falls
   * back to the seed.
   */
  function InitialQuotes(stored: Option<seq<Quote>>): (r: seq<Quote>)
    ensures stored.Some? ==> r == stored.value
    ensures stored == None ==> r == Seed && |r| == 6
    ensures stored == Some([]) ==> r == []
  {
    match stored
    case Some(list) => list
    case None => Seed
  }

  // ---------------------------------------------------------------------
  // Categories: [...new Set(quotes.map(q => q.category))]

  /** `quotes.map(q => q.category)` */
  function CategoryNames(qs: seq<Quote>): seq<string>
  {
    if qs == [] then [] else [qs[0].category] + CategoryNames(qs[1..])
  }

  lemma {:induction false} CategoryNamesAt(qs: seq<Quote>)
    ensures |CategoryNames(qs)| == |qs|
    ensures forall i :: 0 <= i < |qs| ==> CategoryNames(qs)[i] == qs[i].category
  {
    if qs != [] {
      CategoryNamesAt(qs[1..]);
    }
  }

  lemma {:induction false} CategoryNamesAppend(a: seq<Quote>, b: seq<Quote>)
    ensures CategoryNames(a + b) == CategoryNames(a) + CategoryNames(b)
  {
    if a != [] {
      assert a + b == [a[0]] + (a[1..] + b);
      CategoryNamesAppend(a[1..], b);
    } else {
      assert a + b == b;
    }
  }

  ghost predicate HasCategory(qs: seq<Quote>, c: string)
  {
    exists k :: 0 <= k < |qs| && qs[k].category == c
  }

  /** `[...new Set(quotes.map(q => q.category))]` */
  function Categories(qs: seq<Quote>): seq<string>
  {
    Distinct(CategoryNames(qs))
  }

  /**
   * The category list holds each category of `qs` once, nothing else,
   * ordered by the first quote that carries it.
   */
  lemma CategoriesSpec(qs: seq<Quote>)
    ensures NoDuplicates(Categories(qs))
    ensures forall i :: 0 <= i < |Categories(qs)| ==> HasCategory(qs, Categories(qs)[i])
    ensures forall k :: 0 <= k < |qs| ==> qs[k].category in Categories(qs)
    ensures forall i :: 0 <= i < |Categories(qs)| ==> Categories(qs)[i] in CategoryNames(qs)
    ensures forall i, j :: 0 <= i < j < |Categories(qs)| ==>
              FirstIndex(CategoryNames(qs), Categories(qs)[i]) < FirstIndex(CategoryNames(qs), Categories(qs)[j])
  {
    var names := CategoryNames(qs);
    CategoryNamesAt(qs);
    DistinctSpec(names);
    var r := Distinct(names);
    forall i | 0 <= i < |r| ensures HasCategory(qs, r[i]) {
      var k := FirstIndex(names, r[i]);
      assert qs[k].category == r[i];
    }
  }

  /** The category list of `a` is a prefix of that of `b`. */
  ghost predicate CategoriesExtend(a: seq<Quote>, b: seq<Quote>)
  {
    |Categories(a)| <= |Categories(b)| && Categories(b)[..|Categories(a)|] == Categories(a)
  }

  /** Adding or importing quotes never reorders or drops the categories
      already listed: the old list is a prefix of the new one. */
  lemma CategoriesGrow(qs: seq<Quote>, more: seq<Quote>)
    ensures CategoriesExtend(qs, qs + more)
  {
    CategoryNamesAppend(qs, more);
    DistinctExtends(CategoryNames(qs), CategoryNames(more));
  }

  lemma CategoriesExample()
    ensures Categories([Quote("t1", "A"), Quote("t2", "B"), Quote("t3", "A")]) == ["A", "B"]
  {
    var qs := [Quote("t1", "A"), Quote("t2", "B"), Quote("t3", "A")];
    assert CategoryNames(qs) == ["A", "B", "A"];
    assert ["A", "B", "A"][..2] == ["A", "B"];
    assert ["A", "B"][..1] == ["A"];
    assert ["A"][..0] == [];
  }

  // ---------------------------------------------------------------------
  // Filtering

  /**
   * `r` is the order-preserving selection of exactly the quotes of `qs`
   * whose category is `c`: a subsequence of `qs`, holding only quotes of
   * category `c`, and every such quote as often as `qs` holds it.
   */
  ghost predicate ExactlyCategory(r: seq<Quote>, qs: seq<Quote>, c: string)
  {
    && IsSubsequence(r, qs)
    && (forall i :: 0 <= i < |r| ==> r[i].category == c)
    && (forall q: Quote :: q.category == c ==> multiset(r)[q] == multiset(qs)[q])
  }

  /** `quotes.filter(q => q.category === c)` */
  function FilterCategory(qs: seq<Quote>, c: string): seq<Quote>
  {
    if qs == [] then []
    else if qs[0].category == c then [qs[0]] + FilterCategory(qs[1..], c)
    else FilterCategory(qs[1..], c)
  }

  /** The filter keeps exactly the quotes of category `c`, in order, and
      comes back empty exactly when no quote has that category. */
  lemma FilterCategorySpec(qs: seq<Quote>, c: string)
    ensures ExactlyCategory(FilterCategory(qs, c), qs, c)
    ensures FilterCategory(qs, c) == [] <==> !HasCategory(qs, c)
  {
    FilterCategoryExact(qs, c);
    FilterCategoryEmpty(qs, c);
  }

  lemma {:induction false} FilterCategoryExact(qs: seq<Quote>, c: string)
    ensures ExactlyCategory(FilterCategory(qs, c), qs, c)
  {
    if qs != [] {
      var q, tail := qs[0], qs[1..];
      var rest := FilterCategory(tail, c);
      FilterCategoryExact(tail, c);
      assert qs == [q] + tail;
      assert multiset(qs) == multiset([q]) + multiset(tail);
      if q.category == c {
        var r := [q] + rest;
        assert r[1..] == rest;
        assert multiset(r) == multiset([q]) + multiset(rest);
        assert forall i :: 1 <= i < |r| ==> r[i] == rest[i - 1];
      } else {
        assert rest != [] ==> rest[0] != q;
      }
    }
  }

  lemma {:induction false} FilterCategoryEmpty(qs: seq<Quote>, c: string)
    ensures FilterCategory(qs, c) == [] <==> !HasCategory(qs, c)
  {
    if qs != [] {
      var q, tail := qs[0], qs[1..];
      FilterCategoryEmpty(tail, c);
      if q.category != c {
        assert HasCategory(qs, c) ==> HasCategory(tail, c) by {
          if HasCategory(qs, c) {
            var k :| 0 <= k < |qs| && qs[k].category == c;
            assert tail[k - 1] == qs[k];
          }
        }
        assert HasCategory(tail, c) ==> HasCategory(qs, c) by {
          if HasCategory(tail, c) {
            var k :| 0 <= k < |tail| && tail[k].category == c;
            assert qs[k + 1] == tail[k];
          }
        }
      }
    }
  }

  /** The three properties of ExactlyCategory single out one sequence:
      the filter's result. */
  lemma {:induction false} FilterCategoryUnique(s: seq<Quote>, qs: seq<Quote>, c: string)
    requires ExactlyCategory(s, qs, c)
    ensures s == FilterCategory(qs, c)
  {
    if qs == [] {
      assert s == [];
    } else {
      var q, rest := qs[0], qs[1..];
      assert qs == [q] + rest;
      if s != [] && s[0] == q {
        assert s == [q] + s[1..];
        assert IsSubsequence(s[1..], rest);
        forall i | 0 <= i < |s[1..]| ensures s[1..][i].category == c {
          assert s[1..][i] == s[i + 1];
        }
        FilterCategoryUnique(s[1..], rest, c);
      } else {
        // s does not start with q, so it is a subsequence of rest, and q is
        // not of category c (else s would miss one of its copies).
        assert IsSubsequence(s, rest);
        SubsequenceMultiset(s, rest);
        assert multiset(qs)[q] == multiset(rest)[q] + 1;
        assert multiset(s)[q] <= multiset(rest)[q];
        FilterCategoryUnique(s, rest, c);
      }
    }
  }

  /** Filtering distributes over appending. */
  lemma {:induction false} FilterCategoryAppend(a: seq<Quote>, b: seq<Quote>, c: string)
    ensures FilterCategory(a + b, c) == FilterCategory(a, c) + FilterCategory(b, c)
  {
    if a != [] {
      assert a + b == [a[0]] + (a[1..] + b);
      FilterCategoryAppend(a[1..], b, c);
    } else {
      assert a + b == b;
    }
  }

  /** `localStorage.getItem("selectedCategory") || "all"`: a missing or
      empty preference selects "all". */
  function SelectedCategory(pref: Option<string>): (sel: string)
    ensures sel == "all" <==> (pref == None || pref == Some("") || pref == Some("all"))
    ensures sel != "all" ==> pref == Some(sel) && sel != ""
  {
    match pref
    case None => "all"
    case Some(v) => if v == "" then "all" else v
  }

  /** getFilteredQuotes */
  function Filtered(qs: seq<Quote>, pref: Option<string>): seq<Quote>
  {
    var sel := SelectedCategory(pref);
    if sel == "all" then qs else FilterCategory(qs, sel)
  }

  /**
   * Everything is shown under "all" (or a missing or empty preference);
   * any other preference shows exactly the quotes of that category in
   * their stored order, and nothing when no quote has it: a preference
   * naming no present category is not sent back to "all".
   */
  lemma FilteredSpec(qs: seq<Quote>, pref: Option<string>)
    ensures (pref == None || pref == Some("") || pref == Some("all")) ==> Filtered(qs, pref) == qs
    ensures pref.Some? && pref.value != "" && pref.value != "all" ==>
              && ExactlyCategory(Filtered(qs, pref), qs, pref.value)
              && (Filtered(qs, pref) == [] <==> !HasCategory(qs, pref.value))
  {
    var sel := SelectedCategory(pref);
    if sel != "all" {
      FilterCategorySpec(qs, sel);
    }
  }

  /** A quote just appended is listed when its own category is selected. */
  lemma AddedQuoteListed(qs: seq<Quote>, q: Quote)
    ensures q in Filtered(qs + [q], Some(q.category))
  {
    if q.category != "all" && q.category != "" {
      FilterCategoryAppend(qs, [q], q.category);
      assert FilterCategory([q], q.category) == [q];
    }
  }

  // ---------------------------------------------------------------------
  // Choosing the quote to display

  datatype Display = NoQuotesFound | Showing(text: string)

  const NoQuotesMessage: string := "No quotes found."

  /** The text the quote display shows. */
  function DisplayText(d: Display): string
  {
    match d
    case NoQuotesFound => NoQuotesMessage
    case Showing(text) => text
  }

  /**
   * The outcome of showRandomQuote on the filtered list, given the random
   * index it draws (which lies in [0, |candidates|) whenever there is a
   * candidate).
   */
  function PickQuote(candidates: seq<Quote>, index: nat): (d: Display)
    requires candidates != [] ==> index < |candidates|
    ensures d == NoQuotesFound <==> candidates == []
    ensures candidates != [] ==> d == Showing(candidates[index].text)
    ensures DisplayText(d) == NoQuotesMessage || exists q :: q in candidates && DisplayText(d) == q.text
  {
    if |candidates| == 0 then NoQuotesFound else Showing(candidates[index].text)
  }
}
