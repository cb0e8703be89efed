/**
 * The product list on the page: the per-product filter of `filterProducts`,
 * the sample catalogue of `getSampleData`, and the module-level state
 * (`productsData`, `filteredProducts`, `currentFilters`) that loading,
 * filtering and resetting update.
 */
module Listing {
  import opened Options
  import opened JsString
  import opened Feed
  import opened PostId

  /** The checked values of each filter group, as `getSelectedValues` reports them. */
  datatype Filters = Filters(gender: seq<string>, category: seq<string>, size: seq<string>, status: seq<string>)

  const NoFilters: Filters := Filters([], [], [], [])

  /** A group constrains the list when something is checked and `all` is not. */
  predicate Active(selected: seq<string>) {
    |selected| > 0 && "all" !in selected
  }

  /** A group lets a product through when it is inactive or the product's token is checked. */
  predicate Admits(selected: seq<string>, token: string) {
    !Active(selected) || token in selected
  }

  function GenderToken(gender: string): string {
    if gender == "MALE" then "male" else "female"
  }

  function CategoryToken(category: string): string {
    if category == "ÁO" then "ao" else "quan"
  }

  function StatusToken(status: string): string {
    if status == "AVAILABLE" then "available" else "sold"
  }

  /** The callback `filterProducts` hands to `Array.filter`. */
  predicate Matches(f: Filters, p: Product) {
    && Admits(f.gender, GenderToken(p.gender))
    && Admits(f.category, CategoryToken(p.category))
    && Admits(f.size, ToLower(p.size))
    && Admits(f.status, StatusToken(p.status))
  }

  /** `products.filter(p => Matches(f, p))`. */
  function Filtered(ps: seq<Product>, f: Filters): (r: seq<Product>)
    ensures |r| <= |ps|
  {
    if ps == [] then []
    else Filtered(ps[..|ps| - 1], f) + (if Matches(f, ps[|ps| - 1]) then [ps[|ps| - 1]] else [])
  }

  /** Which products pass the filter. */
  function Marks(ps: seq<Product>, f: Filters): seq<bool>
  {
    seq(|ps|, i requires 0 <= i < |ps| => Matches(f, ps[i]))
  }

  /** The marked positions below `k`, in increasing order: an independent account of `Filtered`. */
  function Positions(marks: seq<bool>, k: nat): (o: seq<nat>)
    requires k <= |marks|
    ensures forall j :: 0 <= j < |o| ==> o[j] < k && marks[o[j]]
    ensures forall j1, j2 :: 0 <= j1 < j2 < |o| ==> o[j1] < o[j2]
    ensures forall i :: 0 <= i < k && marks[i] ==> i in o
  {
    if k == 0 then []
    else Positions(marks, k - 1) + (if marks[k - 1] then [k - 1] else [])
  }

  /** `xs[j]` is `src[ys[j]]` for every `j`. */
  predicate Picks(xs: seq<Product>, ys: seq<nat>, src: seq<Product>) {
    && |xs| == |ys|
    && forall j :: 0 <= j < |ys| ==> ys[j] < |src| && xs[j] == src[ys[j]]
  }

  lemma PicksAppend(xs: seq<Product>, ys: seq<nat>, xt: seq<Product>, yt: seq<nat>, src: seq<Product>)
    requires Picks(xs, ys, src) && Picks(xt, yt, src)
    ensures Picks(xs + xt, ys + yt, src)
  {
    forall j | 0 <= j < |ys + yt|
      ensures (ys + yt)[j] < |src| && (xs + xt)[j] == src[(ys + yt)[j]]
    {
      if j < |ys| {
        assert (ys + yt)[j] == ys[j] && (xs + xt)[j] == xs[j];
      } else {
        assert (ys + yt)[j] == yt[j - |ys|] && (xs + xt)[j] == xt[j - |xs|];
      }
    }
  }

  /** Filtering one more element of a prefix. */
  lemma FilteredSnoc(ps: seq<Product>, f: Filters, k: nat)
    requires 0 < k <= |ps|
    ensures Filtered(ps[..k], f)
      == Filtered(ps[..k - 1], f) + (if Matches(f, ps[k - 1]) then [ps[k - 1]] else [])
  {
    assert ps[..k][..k - 1] == ps[..k - 1];
  }

  lemma {:induction false} FilteredPositionsPrefix(ps: seq<Product>, f: Filters, k: nat)
    requires k <= |ps|
    ensures Picks(Filtered(ps[..k], f), Positions(Marks(ps, f), k), ps)
  {
    if k > 0 {
      var marks := Marks(ps, f);
      assert |marks| == |ps| && marks[k - 1] == Matches(f, ps[k - 1]);
      FilteredPositionsPrefix(ps, f, k - 1);
      FilteredSnoc(ps, f, k);
      var xt: seq<Product> := if marks[k - 1] then [ps[k - 1]] else [];
      var yt: seq<nat> := if marks[k - 1] then [k - 1] else [];
      assert Picks(xt, yt, ps);
      PicksAppend(Filtered(ps[..k - 1], f), Positions(marks, k - 1), xt, yt, ps);
    }
  }

  /**
   * The filtered list is an order-preserving subsequence of the products:
   * entry `j` is product `o[j]`, the `o[j]` strictly increase, and every
   * product that passes the filter is among them (and only those, by the
   * contract of `Positions`).
   */
  lemma FilteredInOrder(ps: seq<Product>, f: Filters)
    ensures var o := Positions(Marks(ps, f), |ps|);
      && |Filtered(ps, f)| == |o|
      && (forall j :: 0 <= j < |o| ==> Filtered(ps, f)[j] == ps[o[j]])
      && (forall i :: 0 <= i < |ps| ==> (i in o <==> Matches(f, ps[i])))
  {
    FilteredPositionsPrefix(ps, f, |ps|);
    assert ps[..|ps|] == ps;
  }

  /** A product is in the filtered list exactly when it is in the list and passes the filter. */
  lemma {:induction false} FilteredMembers(ps: seq<Product>, f: Filters, p: Product)
    ensures p in Filtered(ps, f) <==> p in ps && Matches(f, p)
  {
    if ps != [] {
      var init := ps[..|ps| - 1];
      FilteredMembers(init, f, p);
      assert ps == init + [ps[|ps| - 1]];
    }
  }

  /** Filtering a concatenation filters each part. */
  lemma {:induction false} FilteredAppend(a: seq<Product>, b: seq<Product>, f: Filters)
    ensures Filtered(a + b, f) == Filtered(a, f) + Filtered(b, f)
  {
    if b == [] {
      assert a + b == a;
    } else {
      var init, last := b[..|b| - 1], b[|b| - 1];
      var tail := if Matches(f, last) then [last] else [];
      assert Filtered(b, f) == Filtered(init, f) + tail;
      assert (a + b)[..|a + b| - 1] == a + init;
      assert (a + b)[|a + b| - 1] == last;
      assert Filtered(a + b, f) == Filtered(a + init, f) + tail;
      FilteredAppend(a, init, f);
    }
  }

  /** With no group active, the filter keeps the whole list. */
  lemma {:induction false} FilteredInactive(ps: seq<Product>, f: Filters)
    requires !Active(f.gender) && !Active(f.category) && !Active(f.size) && !Active(f.status)
    ensures Filtered(ps, f) == ps
  {
    if ps != [] {
      FilteredInactive(ps[..|ps| - 1], f);
    }
  }

  /** Filtering twice with the same selection changes nothing. */
  lemma {:induction false} FilteredIdempotent(ps: seq<Product>, f: Filters)
    ensures Filtered(Filtered(ps, f), f) == Filtered(ps, f)
  {
    if ps != [] {
      var init := ps[..|ps| - 1];
      var last := ps[|ps| - 1];
      FilteredIdempotent(init, f);
      if Matches(f, last) {
        FilteredAppend(Filtered(init, f), [last], f);
        assert Filtered([last], f) == [last] by {
          assert [last][..0] == [];
        }
      } else {
        assert Filtered(ps, f) == Filtered(init, f);
      }
    }
  }

  /** Checking `all` in a group switches that group off, whatever else is checked. */
  lemma AllOverrides(f: Filters, p: Product)
    ensures "all" in f.gender ==> Matches(f, p) == Matches(f.(gender := []), p)
    ensures "all" in f.category ==> Matches(f, p) == Matches(f.(category := []), p)
    ensures "all" in f.size ==> Matches(f, p) == Matches(f.(size := []), p)
    ensures "all" in f.status ==> Matches(f, p) == Matches(f.(status := []), p)
  {
  }

  /** Every gender other than the exact text `MALE` counts as `female`. */
  lemma GenderSelection(p: Product)
    ensures Matches(Filters(["male"], [], [], []), p) <==> p.gender == "MALE"
    ensures Matches(Filters(["female"], [], [], []), p) <==> p.gender != "MALE"
  {
  }

  /** Every category other than the exact text `ÁO` counts as `quan`. */
  lemma CategorySelection(p: Product)
    ensures Matches(Filters([], ["ao"], [], []), p) <==> p.category == "ÁO"
    ensures Matches(Filters([], ["quan"], [], []), p) <==> p.category != "ÁO"
  {
  }

  /** Every status other than the exact text `AVAILABLE` counts as `sold`. */
  lemma StatusSelection(p: Product)
    ensures Matches(Filters([], [], [], ["available"]), p) <==> p.status == "AVAILABLE"
    ensures Matches(Filters([], [], [], ["sold"]), p) <==> p.status != "AVAILABLE"
  {
  }

  /** Checking both values of a two-valued group lets every product through that group. */
  lemma BothValuesChecked(f: Filters, p: Product)
    requires "male" in f.gender && "female" in f.gender
    requires "available" in f.status && "sold" in f.status
    ensures Matches(f, p) <==> Admits(f.category, CategoryToken(p.category)) && Admits(f.size, ToLower(p.size))
  {
  }

  /** No lower-cased string equals one holding an ASCII capital. */
  lemma LowerDiffersFromCapital(s: string, size: string, k: nat)
    requires k < |size| && 'A' <= size[k] <= 'Z'
    ensures ToLower(s) != size
  {
    ToLowerIdempotent(s);
    if |ToLower(s)| == |size| {
      assert ToLower(s)[k] != size[k];
    }
  }

  /** When no product passes, the filtered list is empty. */
  lemma FilteredNone(ps: seq<Product>, f: Filters)
    requires forall p :: p in ps ==> !Matches(f, p)
    ensures Filtered(ps, f) == []
  {
    if Filtered(ps, f) != [] {
      FilteredMembers(ps, f, Filtered(ps, f)[0]);
    }
  }

  /** A checked size containing an ASCII capital matches nothing, since sizes are compared lower-cased. */
  lemma CapitalSizeMatchesNothing(ps: seq<Product>, size: string, k: nat)
    requires k < |size| && 'A' <= size[k] <= 'Z'
    ensures Filtered(ps, Filters([], [], [size], [])) == []
  {
    var f := Filters([], [], [size], []);
    forall p | p in ps
      ensures !Matches(f, p)
    {
      LowerDiffersFromCapital(p.size, size, k);
    }
    FilteredNone(ps, f);
  }

  /** The size filter ignores ASCII case: sizes that lower-case alike pass or fail together. */
  lemma SizeIgnoresCase(f: Filters, p: Product, q: Product)
    requires p.gender == q.gender && p.category == q.category && p.status == q.status
    requires ToLower(p.size) == ToLower(q.size)
    ensures Matches(f, p) <==> Matches(f, q)
  {
  }

  // ---------------------------------------------------------------- sample catalogue

  /** `https://www.instagram.com/p/<id>/`, the form of every link in the sample catalogue. */
  function PostLink(id: string): string {
    "https://www.instagram.com/p/" + id + "/"
  }

  /** `getSampleData()`: the catalogue shown when the feed cannot be fetched. */
  function SampleData(): (ps: seq<Product>)
    ensures |ps| == 6
    ensures forall k :: 0 <= k < 6 ==> ps[k].id == k + 1
  {
    [ Product(1, "QUẦN", "MALE", "XS", PostLink("DUVF5iiEmtI"), "SOLD", "hàng tặng"),
      Product(2, "ÁO", "FEMALE", "S", PostLink("DUVFTo5krJA"), "AVAILABLE", "độ mới 98%"),
      Product(3, "QUẦN", "MALE", "M", PostLink("DUVFK4skhKx"), "SOLD", "độ mới 99%"),
      Product(4, "ÁO", "FEMALE", "L", PostLink("DUVFCemkiCZ"), "AVAILABLE", "độ mới 98%"),
      Product(5, "QUẦN", "MALE", "XL", PostLink("DUVE3F_ErZr"), "SOLD", "độ mới 98%"),
      Product(6, "ÁO", "FEMALE", "XXL", PostLink("DUVEwgWEtib"), "AVAILABLE", "độ mới 98%") ]
  }

  /** The same six sample records filtered to women's items. */
  lemma SampleFemale()
    ensures Filtered(SampleData(), Filters(["female"], [], [], [])) == [SampleData()[1], SampleData()[3], SampleData()[5]]
  {
    var ps, f := SampleData(), Filters(["female"], [], [], []);
    assert Filtered(ps[..0], f) == [];
    assert ps[..1][..0] == ps[..0];
    assert Filtered(ps[..1], f) == [];
    assert ps[..2][..1] == ps[..1];
    assert Filtered(ps[..2], f) == [ps[1]];
    assert ps[..3][..2] == ps[..2];
    assert Filtered(ps[..3], f) == [ps[1]];
    assert ps[..4][..3] == ps[..3];
    assert Filtered(ps[..4], f) == [ps[1], ps[3]];
    assert ps[..5][..4] == ps[..4];
    assert Filtered(ps[..5], f) == [ps[1], ps[3]];
    assert ps[..6][..5] == ps[..5];
    assert ps[..6] == ps;
  }

  /** The post ids inside the sample links. */
  const SamplePostIds: seq<string> :=
    ["DUVF5iiEmtI", "DUVFTo5krJA", "DUVFK4skhKx", "DUVFCemkiCZ", "DUVE3F_ErZr", "DUVEwgWEtib"]

  /** A sample link is a direct post link after `https://www.`. */
  lemma PostLinkIsDirect(id: string)
    ensures PostLink(id) == "https://www." + DirectLink(id, "/")
  {
    assert "https://www.instagram.com/p/" == "https://www." + Host + "p/";
  }

  /** Under the expression `extractPostId` uses, a sample-style link has no post id; the corrected one reads it. */
  lemma PostLinkIds(id: string)
    requires id != [] && '/' !in id && '?' !in id
    ensures ExtractPostId(PostLink(id)) == None
    ensures ExtractPostIdCorrected(PostLink(id)) == Some(id)
  {
    PostLinkIsDirect(id);
    assert 'i' !in "https://www.";
    AsWrittenMissesDirectLink("https://www.", id, "/");
    CorrectedReadsDirectLink("https://www.", id, "/");
  }

  lemma SampleLinkShape(k: nat)
    requires k < 6
    ensures SampleData()[k].url == PostLink(SamplePostIds[k])
    ensures SamplePostIds[k] != [] && '/' !in SamplePostIds[k] && '?' !in SamplePostIds[k]
  {
  }

  /**
   * No sample link yields a post id under the expression `extractPostId`
   * uses, while the corrected expression reads each one.
   */
  lemma SampleLinks(k: nat)
    requires k < 6
    ensures ExtractPostId(SampleData()[k].url) == None
    ensures ExtractPostIdCorrected(SampleData()[k].url) == Some(SamplePostIds[k])
  {
    SampleLinkShape(k);
    PostLinkIds(SamplePostIds[k]);
  }

  // ---------------------------------------------------------------- page state

  /** What `loadProductsData` stores: the parsed feed, or the sample catalogue when the fetch fails. */
  function Loaded(fetched: Option<string>): (ps: seq<Product>)
  {
    match fetched
    case Some(text) => Parsed(text)
    case None => SampleData()
  }

  /** The module-level variables of the page script. */
  class Page {
    var productsData: seq<Product>
    var filteredProducts: seq<Product>
    var currentFilters: Filters
    /** The selection whose result `filteredProducts` holds. */
    ghost var shown: Filters

    /** The list on screen is always the loaded products filtered by some selection. */
    ghost predicate Valid()
      reads this
    {
      filteredProducts == Filtered(productsData, shown)
    }

    constructor ()
      ensures Valid()
      ensures productsData == [] && filteredProducts == [] && currentFilters == NoFilters
    {
      productsData := [];
      filteredProducts := [];
      currentFilters := NoFilters;
      shown := NoFilters;
    }

    /** `loadProductsData()`, with the outcome of the fetch as input. */
    method LoadProductsData(fetched: Option<string>)
      modifies this
      ensures Valid()
      ensures productsData == Loaded(fetched)
      ensures filteredProducts == productsData
      ensures currentFilters == old(currentFilters)
    {
      if fetched.Some? {
        productsData := ParseCsv(fetched.value);
      } else {
        productsData := SampleData();
      }
      filteredProducts := productsData;
      shown := NoFilters;
      FilteredInactive(productsData, NoFilters);
    }

    /** `filterProducts()` for the given checked values. */
    method FilterProducts(selected: Filters)
      modifies this
      ensures Valid()
      ensures currentFilters == selected
      ensures productsData == old(productsData)
      ensures filteredProducts == Filtered(productsData, selected)
    {
      currentFilters := selected;
      filteredProducts := Filtered(productsData, selected);
      shown := selected;
    }

    /** While `Valid()`, every product on screen is a loaded one, in the order it was loaded. */
    lemma ShownIsSubsequence()
      requires Valid()
      ensures |filteredProducts| <= |productsData|
      ensures forall p :: p in filteredProducts ==> p in productsData
      ensures var o := Positions(Marks(productsData, shown), |productsData|);
        && |filteredProducts| == |o|
        && forall j :: 0 <= j < |o| ==> filteredProducts[j] == productsData[o[j]]
    {
      FilteredInOrder(productsData, shown);
      forall p | p in filteredProducts
        ensures p in productsData
      {
        FilteredMembers(productsData, shown, p);
      }
    }

    /** `resetFilters()`: the full list again; `currentFilters` keeps the last selection. */
    method ResetFilters()
      modifies this
      ensures Valid()
      ensures productsData == old(productsData)
      ensures filteredProducts == productsData
      ensures currentFilters == old(currentFilters)
    {
      filteredProducts := productsData;
      shown := NoFilters;
      FilteredInactive(productsData, NoFilters);
    }

    /** The refresh button: reload, then filter again by the checked values. */
    method Refresh(fetched: Option<string>, selected: Filters)
      modifies this
      ensures Valid()
      ensures productsData == Loaded(fetched)
      ensures filteredProducts == Filtered(Loaded(fetched), selected)
      ensures currentFilters == selected
    {
      LoadProductsData(fetched);
      FilterProducts(selected);
    }
  }

  /** A failed load shows the six sample records, and after a reset the full list is shown again. */
  method FallbackThenReset(selected: Filters) returns (shown: seq<Product>)
    ensures shown == SampleData()
  {
    var page := new Page();
    page.LoadProductsData(None);
    page.FilterProducts(selected);
    page.ResetFilters();
    shown := page.filteredProducts;
  }
}
