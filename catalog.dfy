/**
 * The catalog side of viewMenu: the Items table, the meaning of the
 * filtered and ordered SELECT statements the menu sends, and the choice of
 * statement and message that the menu makes from the customer's answers.
 */
module Catalog {
  import opened Wrappers
  import opened Text

  /** One row of the Items table. Prices are whole numbers, as the maximum price typed at the menu is. */
  datatype Item = Item(itemName: string, ingredients: string, typeOfItem: string, price: int, description: string)

  /** The WHERE clause of a catalog query. */
  datatype Filter =
    | ByPrice(maxPrice: int)
    | ByType(itemType: string)
    | PriceAndType(maxPrice: int, itemType: string)

  /** The ORDER BY clause of a catalog query: by price, or none (storage order). */
  datatype Order = Descending | Ascending | Unordered

  /**
   * LOWER(TRIM(x)): the form in which item types are compared. Trimming and
   * lower-casing may be done in either order, only spaces are trimmed, and
   * a type made only of spaces compares as the empty string.
   */
  function TypeKey(s: string): (r: string)
    ensures r == Trim(SqlSpace, ToLower(s))
    ensures r != [] ==> r[0] != ' ' && r[|r| - 1] != ' '
    ensures r == [] <==> AllPad(SqlSpace, s)
  {
    TrimCommutesWithLower(SqlSpace, s);
    ToLower(Trim(SqlSpace, s))
  }

  /**
   * Whether the WHERE clause holds of a row. A kept row is never priced
   * above a ceiling, a row whose stored type is exactly the type asked for
   * passes the type test, and so do a blank stored type and a blank type
   * asked for.
   */
  function Keeps(f: Filter, x: Item): (r: bool)
    ensures r && !f.ByType? ==> x.price <= f.maxPrice
    ensures f.ByType? && x.typeOfItem == f.itemType ==> r
    ensures f.ByType? && AllPad(SqlSpace, x.typeOfItem) && AllPad(SqlSpace, f.itemType) ==> r
  {
    match f
    case ByPrice(m) => x.price <= m
    case ByType(q) => TypeKey(x.typeOfItem) == TypeKey(q)
    case PriceAndType(m, q) => x.price <= m && TypeKey(x.typeOfItem) == TypeKey(q)
  }

  /**
   * The rows a filtered SELECT returns, in storage order. Every row is kept
   * as often as it occurs in the table if the WHERE clause holds of it, and
   * not at all otherwise.
   */
  function Select(items: seq<Item>, f: Filter): (r: seq<Item>)
    ensures |r| <= |items|
    ensures forall i :: 0 <= i < |r| ==> Keeps(f, r[i])
  {
    if items == [] then []
    else (if Keeps(f, items[0]) then [items[0]] else []) + Select(items[1..], f)
  }

  /** Bag semantics of WHERE: each row is returned as often as it occurs if it is kept, and never otherwise. */
  lemma {:induction false} SelectCounts(items: seq<Item>, f: Filter)
    ensures forall x :: multiset(Select(items, f))[x] == if Keeps(f, x) then multiset(items)[x] else 0
  {
    if items != [] {
      var h := items[0];
      SelectCounts(items[1..], f);
      assert multiset(items) == multiset{h} + multiset(items[1..]) by {
        assert items == [h] + items[1..];
      }
      assert Select(items, f) == (if Keeps(f, h) then [h] else []) + Select(items[1..], f);
    }
  }

  /** Whether `a` may stand before `b` in a result ordered by `o`. */
  predicate InOrder(o: Order, a: Item, b: Item)
  {
    match o
    case Descending => a.price >= b.price
    case Ascending => a.price <= b.price
    case Unordered => true
  }

  predicate Sorted(o: Order, s: seq<Item>)
  {
    forall i, j :: 0 <= i < j < |s| ==> InOrder(o, s[i], s[j])
  }

  /** A row that may stand before every row of `s` may stand before every row of a permutation of `s` with `x` added, if it may stand before `x`. */
  lemma BeforeAll(o: Order, h: Item, x: Item, s: seq<Item>, r: seq<Item>)
    requires forall j :: 0 <= j < |s| ==> InOrder(o, h, s[j])
    requires InOrder(o, h, x)
    requires multiset(r) == multiset(s) + multiset{x}
    ensures forall j :: 0 <= j < |r| ==> InOrder(o, h, r[j])
  {
    forall j | 0 <= j < |r|
      ensures InOrder(o, h, r[j])
    {
      assert r[j] in multiset(r);
      if r[j] != x {
        assert r[j] in multiset(s);
        var i :| 0 <= i < |s| && s[i] == r[j];
      }
    }
  }

  /** Places `x` into the ordered sequence `s`, after the rows that may stand before it. */
  function Insert(o: Order, x: Item, s: seq<Item>): (r: seq<Item>)
    requires Sorted(o, s)
    ensures multiset(r) == multiset(s) + multiset{x}
    ensures Sorted(o, r)
  {
    if s == [] || InOrder(o, x, s[0]) then
      assert forall j :: 0 <= j < |s| ==> InOrder(o, s[0], s[j]);
      [x] + s
    else
      assert s == [s[0]] + s[1..];
      var rest := Insert(o, x, s[1..]);
      BeforeAll(o, s[0], x, s[1..], rest);
      [s[0]] + rest
  }

  /** ORDER BY price: a permutation of `s` in the order `o` asks for. */
  function Sort(o: Order, s: seq<Item>): (r: seq<Item>)
    ensures multiset(r) == multiset(s)
    ensures Sorted(o, r)
  {
    if s == [] then []
    else
      assert s == [s[0]] + s[1..];
      Insert(o, s[0], Sort(o, s[1..]))
  }

  /**
   * What the database may return for a query with filter `f` and order
   * `o`: exactly the filtered rows, in any order `o` allows.
   */
  predicate Admissible(items: seq<Item>, f: Filter, o: Order, rows: seq<Item>)
  {
    multiset(rows) == multiset(Select(items, f)) && Sorted(o, rows)
  }

  /** One admissible answer to the query: the filtered rows, sorted when an ORDER BY is present. */
  function Query(items: seq<Item>, f: Filter, o: Order): (r: seq<Item>)
    ensures Admissible(items, f, o, r)
  {
    var rows := Select(items, f);
    if o == Unordered then rows else Sort(o, rows)
  }

  /** Every admissible answer holds exactly the table rows the filter keeps, and is empty exactly when none is kept. */
  lemma AdmissibleRows(items: seq<Item>, f: Filter, o: Order, rows: seq<Item>)
    requires Admissible(items, f, o, rows)
    ensures forall x :: x in rows <==> x in items && Keeps(f, x)
    ensures rows == [] <==> forall x :: x in items ==> !Keeps(f, x)
  {
    SelectCounts(items, f);
    forall x
      ensures x in rows <==> x in items && Keeps(f, x)
    {
      assert x in rows <==> x in multiset(rows);
      assert x in items <==> x in multiset(items);
    }
    if rows != [] {
      assert rows[0] in rows;
    }
  }

  /** Filtering on price and type keeps what filtering on price and then on type keeps, in the same order. */
  lemma {:induction false} PriceAndTypeIsBothFilters(items: seq<Item>, m: int, q: string)
    ensures Select(items, PriceAndType(m, q)) == Select(Select(items, ByPrice(m)), ByType(q))
  {
    if items != [] {
      var rest := Select(items[1..], ByPrice(m));
      PriceAndTypeIsBothFilters(items[1..], m, q);
      if items[0].price <= m {
        assert Select(items, ByPrice(m)) == [items[0]] + rest;
        assert ([items[0]] + rest)[0] == items[0];
        assert ([items[0]] + rest)[1..] == rest;
      } else {
        assert Select(items, ByPrice(m)) == rest;
      }
    }
  }

  /** Two filters that keep the same rows select the same sequence. */
  lemma {:induction false} SelectCongruence(items: seq<Item>, f: Filter, g: Filter)
    requires forall x :: Keeps(f, x) == Keeps(g, x)
    ensures Select(items, f) == Select(items, g)
  {
    if items != [] {
      SelectCongruence(items[1..], f, g);
    }
  }

  /** The price ceiling is inclusive: a row priced exactly at the maximum is kept, one a unit above is not. */
  lemma PriceCeilingIsInclusive(items: seq<Item>, m: int)
    ensures forall x :: x in items && x.price == m ==> x in Select(items, ByPrice(m))
    ensures forall x :: x in Select(items, ByPrice(m)) ==> x in items && x.price <= m
  {
    SelectCounts(items, ByPrice(m));
    forall x | x in items && x.price == m
      ensures x in Select(items, ByPrice(m))
    {
      assert x in multiset(items);
    }
    forall x | x in Select(items, ByPrice(m))
      ensures x in items && x.price <= m
    {
      assert x in multiset(Select(items, ByPrice(m)));
    }
  }

  /** The sort choice typed at the menu: 1 is highest price first, 2 lowest first, anything else no ORDER BY. */
  function SortFor(sortChoice: int): (r: Order)
    ensures r == Descending <==> sortChoice == 1
    ensures r == Ascending <==> sortChoice == 2
  {
    if sortChoice == 1 then Descending
    else if sortChoice == 2 then Ascending
    else Unordered
  }

  /**
   * The filter choice typed at the menu: 1 is the price ceiling, 2 the item
   * type, 3 both; the type is trimmed by the client (String.trim) before it
   * is put into the query.
   */
  function FilterFor(filterChoice: int, maxPrice: int, itemType: string): (r: Option<Filter>)
    ensures r.None? <==> !(1 <= filterChoice <= 3)
    ensures r.Some? ==> (r.value.ByType? <==> filterChoice == 2)
    ensures r.Some? && !r.value.ByType? ==> r.value.maxPrice == maxPrice
    ensures r.Some? && !r.value.ByPrice? ==>
      var q := r.value.itemType;
      && |q| <= |itemType|
      && (q != [] ==> !IsPad(JavaWhitespace, q[0]) && !IsPad(JavaWhitespace, q[|q| - 1]))
      && (q == [] <==> AllPad(JavaWhitespace, itemType))
  {
    if filterChoice == 1 then Some(ByPrice(maxPrice))
    else if filterChoice == 2 then Some(ByType(Trim(JavaWhitespace, itemType)))
    else if filterChoice == 3 then Some(PriceAndType(maxPrice, Trim(JavaWhitespace, itemType)))
    else None
  }

  /** Typing the item type with different padding or letter case selects the same rows. */
  lemma TypeQueryIgnoresPaddingAndCase(items: seq<Item>, a: string, b: string)
    requires ToLower(Trim(JavaWhitespace, a)) == ToLower(Trim(JavaWhitespace, b))
    ensures Select(items, ByType(Trim(JavaWhitespace, a))) == Select(items, ByType(Trim(JavaWhitespace, b)))
  {
    TrimCommutesWithLower(SqlSpace, Trim(JavaWhitespace, a));
    TrimCommutesWithLower(SqlSpace, Trim(JavaWhitespace, b));
    TrimCommutesWithLower(JavaWhitespace, a);
    TrimCommutesWithLower(JavaWhitespace, b);
    SelectCongruence(items, ByType(Trim(JavaWhitespace, a)), ByType(Trim(JavaWhitespace, b)));
  }

  /** " pizza " and "Pizza" typed as the item type select the same rows. */
  lemma TrimPaddedPizza()
    ensures Trim(JavaWhitespace, " pizza ") == "pizza"
  {
    assert TrimStart(JavaWhitespace, " pizza ") == "pizza " by {
      assert " pizza "[0] == ' ' && " pizza "[1..] == "pizza ";
      assert TrimStart(JavaWhitespace, "pizza ") == "pizza ";
    }
    assert "pizza "[5] == ' ' && "pizza "[..5] == "pizza";
    assert TrimEnd(JavaWhitespace, "pizza") == "pizza";
  }

  lemma TrimAndLowerPizza()
    ensures ToLower(Trim(JavaWhitespace, "Pizza")) == "pizza"
  {
    assert TrimStart(JavaWhitespace, "Pizza") == "Pizza";
    assert TrimEnd(JavaWhitespace, "Pizza") == "Pizza";
    assert LowerChar('P') == 'p';
  }

  lemma LowerPizza()
    ensures ToLower("pizza") == "pizza"
  {
  }

  /** " pizza " and "Pizza" typed as the item type select the same rows. */
  lemma PaddedLowerCaseTypeSelectsSameRows(items: seq<Item>)
    ensures Select(items, FilterFor(2, 0, " pizza ").value) == Select(items, FilterFor(2, 0, "Pizza").value)
  {
    TrimPaddedPizza();
    TrimAndLowerPizza();
    LowerPizza();
    TypeQueryIgnoresPaddingAndCase(items, " pizza ", "Pizza");
  }

  /** Spaces around an item's stored type do not change whether the type filter keeps it. */
  lemma StoredTypePaddingIgnored(x: Item, q: string, p1: string, p2: string)
    requires AllPad(SqlSpace, p1) && AllPad(SqlSpace, p2)
    ensures Keeps(ByType(q), x.(typeOfItem := p1 + x.typeOfItem + p2)) == Keeps(ByType(q), x)
  {
    TrimIgnoresPadding(SqlSpace, p1, x.typeOfItem, p2);
  }

  /** The message shown when a filtered query returns no row. */
  datatype EmptyMessage = NoneInPriceRange | NoneOfType

  /** What the menu shows after the full listing. */
  datatype FilterOutcome =
    | NotRequested                 // the answer to "filter your search?" was not Y
    | InvalidChoice                // a filter choice other than 1, 2 or 3: no query runs
    | NoneFound(message: EmptyMessage)
    | Found(rows: seq<Item>)

  /** The filter-and-sort branch of viewMenu, once the customer asked to filter. */
  function FilterStep(items: seq<Item>, filterChoice: int, maxPrice: int, itemType: string, sortChoice: int): (r: FilterOutcome)
    ensures r != NotRequested
    ensures r == InvalidChoice <==> !(1 <= filterChoice <= 3)
    ensures r.NoneFound? ==> r.message == if filterChoice == 1 then NoneInPriceRange else NoneOfType
    ensures 1 <= filterChoice <= 3 ==>
      var f := FilterFor(filterChoice, maxPrice, itemType).value;
      && (r.NoneFound? <==> forall x :: x in items ==> !Keeps(f, x))
      && (r.Found? ==> r.rows != [] && Admissible(items, f, SortFor(sortChoice), r.rows))
  {
    match FilterFor(filterChoice, maxPrice, itemType)
    case None => InvalidChoice
    case Some(f) =>
      var rows := Query(items, f, SortFor(sortChoice));
      AdmissibleRows(items, f, SortFor(sortChoice), rows);
      if rows == [] then NoneFound(if filterChoice == 1 then NoneInPriceRange else NoneOfType)
      else Found(rows)
  }

  /** What viewMenu shows: an error, an empty menu, or the full listing followed by the filter step. */
  datatype MenuOutcome =
    | MenuFailed                   // a statement failed: "Unable to view menu"
    | MenuEmpty
    | Listed(listing: seq<Item>, filter: FilterOutcome)

  /** The only answers that ask for a filter are "Y" and "y". */
  lemma AnswerYes(answer: string)
    ensures EqualsIgnoreCase(answer, "Y") <==> answer == "Y" || answer == "y"
  {
    if EqualsIgnoreCase(answer, "Y") {
      assert CharEqualsIgnoreCase(answer[0], 'Y');
      assert answer == [answer[0]];
    }
  }

  /**
   * viewMenu: list the whole table; if it is empty say so and stop;
   * otherwise ask whether to filter and, if the answer is Y in either case,
   * run the filter step. `connected` is false when the database cannot
   * answer, in which case every statement fails.
   */
  function ViewMenu(items: seq<Item>, connected: bool, answer: string,
                    filterChoice: int, maxPrice: int, itemType: string, sortChoice: int): (r: MenuOutcome)
    ensures r == MenuFailed <==> !connected
    ensures r == MenuEmpty <==> connected && items == []
    ensures r.Listed? ==> r.listing == items && r.listing != []
    ensures r.Listed? ==> (r.filter == NotRequested <==> answer != "Y" && answer != "y")
    ensures r.Listed? && r.filter != NotRequested ==>
      r.filter == FilterStep(items, filterChoice, maxPrice, itemType, sortChoice)
  {
    AnswerYes(answer);
    if !connected then MenuFailed
    else if items == [] then MenuEmpty
    else if !EqualsIgnoreCase(answer, "Y") then Listed(items, NotRequested)
    else Listed(items, FilterStep(items, filterChoice, maxPrice, itemType, sortChoice))
  }

  /** A type filter that matches nothing is reported as "no items found", not as a failure. */
  lemma NoMatchIsNotAFailure(items: seq<Item>, answer: string, maxPrice: int, itemType: string, sortChoice: int)
    requires items != [] && (answer == "Y" || answer == "y")
    requires forall x :: x in items ==> !Keeps(ByType(Trim(JavaWhitespace, itemType)), x)
    ensures ViewMenu(items, true, answer, 2, maxPrice, itemType, sortChoice) == Listed(items, NoneFound(NoneOfType))
  {
  }
}
