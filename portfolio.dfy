/**
 The portfolio page's category filter, in the state it settles in once its
 fade-in and fade-out delays have run.
 */
module Portfolio {
  import opened Flags

  /** The value of `getAttribute`: `null` when the attribute is absent. */
  datatype Attr = Missing | Present(value: string)

  /** The click handler's test `filter === 'all' || category === filter`; two missing
      attributes compare equal, as `null === null` does. */
  predicate Matches(filter: Attr, category: Attr)
    ensures filter == Present("all") ==> Matches(filter, category)
    ensures filter != Present("all") ==> (Matches(filter, category) <==> category == filter)
  {
    filter == Present("all") || category == filter
  }

  /** The settled display state of every item after a click with `filter`. */
  function Visibility(filter: Attr, categories: seq<Attr>): (shown: seq<bool>)
    ensures |shown| == |categories|
    ensures forall i :: 0 <= i < |categories| ==> shown[i] == Matches(filter, categories[i])
  {
    seq(|categories|, i requires 0 <= i < |categories| => Matches(filter, categories[i]))
  }

  /** Every item carrying category `c`. */
  function CountOf(categories: seq<Attr>, c: Attr): nat {
    multiset(categories)[c]
  }

  /** "all" shows every item. */
  lemma {:induction false} AllShowsEverything(categories: seq<Attr>)
    ensures CountTrue(Visibility(Present("all"), categories)) == |categories|
  {
    if categories != [] {
      assert Visibility(Present("all"), categories)[1..] == Visibility(Present("all"), categories[1..]);
      AllShowsEverything(categories[1..]);
    }
  }

  /** Any other filter shows exactly the items of that category: item i is shown iff its
      category equals the filter, and as many items are shown as carry that category. */
  lemma {:induction false} FilterShowsCategory(f: Attr, categories: seq<Attr>)
    requires f != Present("all")
    ensures forall i :: 0 <= i < |categories| ==>
      (Visibility(f, categories)[i] <==> categories[i] == f)
    ensures CountTrue(Visibility(f, categories)) == CountOf(categories, f)
  {
    if categories != [] {
      assert Visibility(f, categories)[1..] == Visibility(f, categories[1..]);
      assert categories == [categories[0]] + categories[1..];
      assert multiset(categories) == multiset{categories[0]} + multiset(categories[1..]);
      FilterShowsCategory(f, categories[1..]);
    }
  }

  /** The first button whose `data-filter` is "all" (what the `querySelector` in the
      initializer finds), or the number of buttons when there is none. */
  function FirstAll(filters: seq<Attr>): (i: nat)
    ensures i <= |filters|
    ensures i < |filters| ==> filters[i] == Present("all")
    ensures forall j :: 0 <= j < i ==> filters[j] != Present("all")
  {
    if filters == [] then 0
    else if filters[0] == Present("all") then 0
    else 1 + FirstAll(filters[1..])
  }

  class PortfolioFilter {
    /** Each button's `data-filter` and each item's `data-category`. */
    const filters: seq<Attr>
    const categories: seq<Attr>
    /** Each button's `active` class, and whether each item is displayed. */
    const buttonActive: array<bool>
    const shown: array<bool>

    ghost predicate Valid()
      reads this
    {
      buttonActive != shown &&
      buttonActive.Length == |filters| && shown.Length == |categories|
    }

    constructor (filters: seq<Attr>, categories: seq<Attr>, buttonActive: array<bool>, shown: array<bool>)
      requires buttonActive != shown
      requires buttonActive.Length == |filters| && shown.Length == |categories|
      ensures Valid()
      ensures this.filters == filters && this.categories == categories
      ensures this.buttonActive == buttonActive && this.shown == shown
    {
      this.filters := filters;
      this.categories := categories;
      this.buttonActive := buttonActive;
      this.shown := shown;
    }

    /** The click handler of button b: it alone becomes active, and each item ends up
        displayed exactly when it matches the button's filter. */
    method Click(b: nat)
      requires Valid() && b < |filters|
      modifies buttonActive, shown
      ensures buttonActive[..] == Indicator(|filters|, b)
      ensures shown[..] == Visibility(filters[b], categories)
    {
      var filter := filters[b];
      for i := 0 to buttonActive.Length
        invariant forall j :: 0 <= j < i ==> !buttonActive[j]
      {
        buttonActive[i] := false;
      }
      buttonActive[b] := true;
      for i := 0 to shown.Length
        invariant forall j :: 0 <= j < i ==> shown[j] == Matches(filter, categories[j])
        invariant buttonActive[..] == Indicator(|filters|, b)
      {
        if filter == Present("all") || categories[i] == filter {
          shown[i] := true;
        } else {
          shown[i] := false;
        }
      }
    }

    /** The end of initializePortfolioFilter: a simulated click on the first "all"
        button, if there is one, so that every item starts out shown. */
    method Initialize()
      requires Valid()
      modifies buttonActive, shown
      ensures FirstAll(filters) < |filters| ==>
        buttonActive[..] == Indicator(|filters|, FirstAll(filters)) &&
        forall i :: 0 <= i < shown.Length ==> shown[i]
      ensures FirstAll(filters) == |filters| ==> unchanged(buttonActive) && unchanged(shown)
    {
      var b := FirstAll(filters);
      if b < |filters| {
        Click(b);
      }
    }
  }
}
