/** On-demand EC2 prices from a decoded price catalog
    (`get_instance_on_demand_prices`), and the rows the command line tool
    assembles from them for the selected regions and instance types. */
module Ec2Price {
  import opened Common
  import opened Dicts
  import opened Wildcard

  const ComputeInstance := "Compute Instance"
  const DedicatedHost := "Host"
  const NoSoftware := "NA"
  const Used := "Used"
  const PreviousGeneration := "No"
  const Usd := "USD"
  const DefaultOs := "Linux"

  /** The parts of the decoded JSON catalog the extraction reads. A member
      whose absence the source does not check is optional here, and reading
      an absent one is a KeyError. */
  datatype Product = Product(productFamily: Option<string>, attributes: Option<Dict<string>>)
  datatype Dimension = Dimension(pricePerUnit: Option<Dict<string>>)
  datatype Term = Term(priceDimensions: Option<Dict<Dimension>>)
  datatype Terms = Terms(onDemand: Option<Dict<Dict<Term>>>)
  datatype Catalog = Catalog(products: Option<Dict<Product>>, terms: Option<Terms>)

  /** `product['attributes'][key]`. */
  function Attr(p: Product, key: string): Result<string> {
    var attrs :- Required(p.attributes, "attributes");
    Get(attrs, key)
  }

  /** The product has attribute `key`, and its value is `value`. */
  predicate HasAttr(p: Product, key: string, value: string) {
    Attr(p, key) == Ok(value)
  }

  /** The product has attribute `key`, and its value is not `value`. */
  predicate HasAttrOtherThan(p: Product, key: string, value: string) {
    Attr(p, key).Ok? && Attr(p, key).value != value
  }

  /** The products the extraction keeps: Compute Instance, not on a
      dedicated host, the wanted operating system, no pre-installed
      software, used capacity and, when asked for, not of a previous
      generation. */
  ghost predicate Qualifies(p: Product, os: string, currentOnly: bool) {
    && p.productFamily == Some(ComputeInstance)
    && HasAttrOtherThan(p, "tenancy", DedicatedHost)
    && HasAttr(p, "operatingSystem", os)
    && HasAttr(p, "preInstalledSw", NoSoftware)
    && HasAttr(p, "capacitystatus", Used)
    && (currentOnly ==> HasAttrOtherThan(p, "currentGeneration", PreviousGeneration))
  }

  /** The chain of filters of one loop iteration: Ok(true) keeps the product,
      Ok(false) skips it, Err is the KeyError an attribute lookup raises.
      An attribute is read only once the earlier filters have passed. */
  function Screen(p: Product, os: string, currentOnly: bool): Result<bool> {
    if p.productFamily != Some(ComputeInstance) then Ok(false)
    else
      var tenancy :- Attr(p, "tenancy");
      if tenancy == DedicatedHost then Ok(false)
      else
        var system :- Attr(p, "operatingSystem");
        if system != os then Ok(false)
        else
          var software :- Attr(p, "preInstalledSw");
          if software != NoSoftware then Ok(false)
          else
            var capacity :- Attr(p, "capacitystatus");
            if capacity != Used then Ok(false)
            else if !currentOnly then Ok(true)
            else
              var generation :- Attr(p, "currentGeneration");
              Ok(generation != PreviousGeneration)
  }

  /** `plist['terms']['OnDemand'][pid]`. */
  function OnDemandTerms(c: Catalog, pid: string): Result<Dict<Term>> {
    var terms :- Required(c.terms, "terms");
    var onDemand :- Required(terms.onDemand, "OnDemand");
    Get(onDemand, pid)
  }

  /** The first price dimension of the first on-demand term of `pid`. */
  function FirstDimension(c: Catalog, pid: string): Result<Dimension> {
    var priceTerms :- OnDemandTerms(c, pid);
    var firstTerm :- FirstValue(priceTerms);
    var dimensions :- Required(firstTerm.priceDimensions, "priceDimensions");
    FirstValue(dimensions)
  }

  /** The instance type and the USD price of a kept product: the first price
      dimension of its first on-demand term. */
  function Priced(c: Catalog, pid: string, p: Product): Result<(string, string)> {
    var firstDimension :- FirstDimension(c, pid);
    var instanceType :- Attr(p, "instanceType");
    var perUnit :- Required(firstDimension.pricePerUnit, "pricePerUnit");
    var price :- Get(perUnit, Usd);
    Ok((instanceType, price))
  }

  /** What one iteration of the loop does with a product: raises (Err),
      skips it (Ok(None)) or assigns its instance type and price (Ok(Some)). */
  type Step = Result<Option<(string, string)>>

  /** The iteration for the product `entry` (its id and its record). */
  function Contribution(c: Catalog, entry: (string, Product), os: string, currentOnly: bool): Step {
    var keep :- Screen(entry.1, os, currentOnly);
    if !keep then Ok(None)
    else
      var priced :- Priced(c, entry.0, entry.1);
      Ok(Some(priced))
  }

  /** One iteration applied to the dict built so far. */
  function Apply(prices: Dict<string>, step: Step): Result<Dict<string>> {
    var kept :- step;
    match kept
    case None => Ok(prices)
    case Some((instanceType, price)) => Ok(Assign(prices, instanceType, price))
  }

  /** The loop, given what each iteration does: the dict after all of them,
      or the exception of the iteration that raised. */
  function RunSteps(steps: seq<Step>): Result<Dict<string>>
    decreases |steps|
  {
    if steps == [] then Ok([])
    else
      var prices :- RunSteps(steps[..|steps| - 1]);
      Apply(prices, steps[|steps| - 1])
  }

  /** The loop after one more iteration. */
  lemma RunOneMore(steps: seq<Step>, i: nat)
    requires i < |steps|
    ensures RunSteps(steps[..i + 1]) == if RunSteps(steps[..i]).Err? then RunSteps(steps[..i])
                                        else Apply(RunSteps(steps[..i]).value, steps[i])
  {
    assert steps[..i + 1][..i] == steps[..i];
  }

  /** The iterations over the products `ps`, in catalog order. */
  function Steps(c: Catalog, ps: Dict<Product>, os: string, currentOnly: bool): (steps: seq<Step>)
    ensures |steps| == |ps|
    ensures forall i :: 0 <= i < |ps| ==> steps[i] == Contribution(c, ps[i], os, currentOnly)
  {
    seq(|ps|, i requires 0 <= i < |ps| => Contribution(c, ps[i], os, currentOnly))
  }

  /** What `get_instance_on_demand_prices` returns for a catalog. */
  function Extract(c: Catalog, os: string, currentOnly: bool): Result<Dict<string>> {
    var products :- Required(c.products, "products");
    RunSteps(Steps(c, products, os, currentOnly))
  }

  /** Once an iteration has raised, the loop raises that same error. */
  lemma {:induction false} ErrorIsFinal(steps: seq<Step>, n: nat)
    requires n <= |steps| && RunSteps(steps[..n]).Err?
    ensures RunSteps(steps) == RunSteps(steps[..n])
    decreases |steps| - n
  {
    if n < |steps| {
      assert steps[..n + 1][..n] == steps[..n];
      ErrorIsFinal(steps, n + 1);
    } else {
      assert steps[..n] == steps;
    }
  }

  /** `get_instance_on_demand_prices(region, os, current_only)` with the
      region's decoded catalog in place of the download. */
  method GetInstanceOnDemandPrices(catalog: Catalog, os: string, currentOnly: bool)
    returns (r: Result<Dict<string>>)
    ensures r == Extract(catalog, os, currentOnly)
  {
    var products :- Required(catalog.products, "products");
    ghost var steps := Steps(catalog, products, os, currentOnly);
    forall n | 0 <= n <= |steps| && RunSteps(steps[..n]).Err?
      ensures Extract(catalog, os, currentOnly) == RunSteps(steps[..n])
    {
      ErrorIsFinal(steps, n);
    }
    var prices: Dict<string> := [];
    for i := 0 to |products|
      invariant RunSteps(steps[..i]) == Ok(prices)
    {
      var (pid, product) := products[i];
      RunOneMore(steps, i);
      assert steps[i] == Contribution(catalog, (pid, product), os, currentOnly);
      if product.productFamily != Some(ComputeInstance) {
        continue;
      }
      var attrs :- Required(product.attributes, "attributes");
      var tenancy :- Get(attrs, "tenancy");
      if tenancy == DedicatedHost {
        continue;
      }
      var system :- Get(attrs, "operatingSystem");
      if system != os {
        continue;
      }
      var software :- Get(attrs, "preInstalledSw");
      if software != NoSoftware {
        continue;
      }
      var capacity :- Get(attrs, "capacitystatus");
      if capacity != Used {
        continue;
      }
      if currentOnly {
        var generation :- Get(attrs, "currentGeneration");
        if generation == PreviousGeneration {
          continue;
        }
      }
      var priceTerms :- OnDemandTerms(catalog, pid);
      var firstTerm :- FirstValue(priceTerms);
      var dimensions :- Required(firstTerm.priceDimensions, "priceDimensions");
      var firstDimension :- FirstValue(dimensions);
      var instanceType :- Get(attrs, "instanceType");
      var perUnit :- Required(firstDimension.pricePerUnit, "pricePerUnit");
      var price :- Get(perUnit, Usd);
      prices := Assign(prices, instanceType, price);
    }
    assert steps[..|steps|] == steps;
    return Ok(prices);
  }

  /** The step assigns a price to the instance type `k`. */
  predicate Assigns(step: Step, k: string) {
    step.Ok? && step.value.Some? && step.value.value.0 == k
  }

  /** The loop completes exactly when no iteration raises. */
  lemma {:induction false} RunSucceeds(steps: seq<Step>)
    ensures RunSteps(steps).Ok? <==> forall i :: 0 <= i < |steps| ==> steps[i].Ok?
    decreases |steps|
  {
    if steps != [] {
      var n := |steps| - 1;
      RunSucceeds(steps[..n]);
      assert forall i :: 0 <= i < n ==> steps[..n][i] == steps[i];
    }
  }

  /** A loop that raises raises the error of the first iteration that does. */
  lemma {:induction false} RunRaisesFirstError(steps: seq<Step>)
    requires RunSteps(steps).Err?
    ensures exists i :: && 0 <= i < |steps| && steps[i].Err?
                        && RunSteps(steps) == Err(steps[i].error)
                        && forall j :: 0 <= j < i ==> steps[j].Ok?
    decreases |steps|
  {
    var n := |steps| - 1;
    if RunSteps(steps[..n]).Err? {
      RunRaisesFirstError(steps[..n]);
      var i :| && 0 <= i < n && steps[..n][i].Err?
               && RunSteps(steps[..n]) == Err(steps[..n][i].error)
               && forall j :: 0 <= j < i ==> steps[..n][j].Ok?;
      assert forall j :: 0 <= j <= i ==> steps[..n][j] == steps[j];
    } else {
      RunSucceeds(steps[..n]);
      assert forall j :: 0 <= j < n ==> steps[..n][j] == steps[j];
      assert steps[n].Err?;
    }
  }

  /** What one more iteration does to the price read under `k`. */
  lemma ApplyLookup(prices: Dict<string>, step: Step, k: string)
    requires Apply(prices, step).Ok?
    ensures Lookup(Apply(prices, step).value, k) ==
              if Assigns(step, k) then Some(step.value.value.1) else Lookup(prices, k)
  {
    if step.value.Some? {
      LookupAssign(prices, step.value.value.0, step.value.value.1, k);
    }
  }

  /** The keys of a completed loop are the instance types some iteration
      assigned. */
  lemma {:induction false} RunKeys(steps: seq<Step>, k: string)
    requires RunSteps(steps).Ok?
    ensures k in Keys(RunSteps(steps).value) <==> exists i :: 0 <= i < |steps| && Assigns(steps[i], k)
    decreases |steps|
  {
    if steps != [] {
      var n := |steps| - 1;
      var init := steps[..n];
      RunOneMore(steps, n);
      assert steps[..n + 1] == steps;
      RunKeys(init, k);
      ApplyLookup(RunSteps(init).value, steps[n], k);
      AssignedSomewhere(steps, init, k);
    }
  }

  lemma AssignedSomewhere(steps: seq<Step>, init: seq<Step>, k: string)
    requires steps != [] && init == steps[..|steps| - 1]
    ensures (exists i :: 0 <= i < |steps| && Assigns(steps[i], k)) <==>
              (exists i :: 0 <= i < |init| && Assigns(init[i], k)) || Assigns(steps[|steps| - 1], k)
  {
    assert forall i :: 0 <= i < |init| ==> init[i] == steps[i];
    if exists i :: 0 <= i < |steps| && Assigns(steps[i], k) {
      var i :| 0 <= i < |steps| && Assigns(steps[i], k);
      if i < |init| {
        assert Assigns(init[i], k);
      }
    }
  }

  /** Later iterations overwrite earlier ones: an instance type reads as the
      price the last iteration that assigned it gave. */
  lemma {:induction false} RunLastWins(steps: seq<Step>, i: int, k: string, v: string)
    requires RunSteps(steps).Ok?
    requires 0 <= i < |steps| && steps[i] == Ok(Some((k, v)))
    requires forall j :: i < j < |steps| ==> !Assigns(steps[j], k)
    ensures Lookup(RunSteps(steps).value, k) == Some(v)
    decreases |steps|
  {
    var n := |steps| - 1;
    var init := steps[..n];
    RunOneMore(steps, n);
    assert steps[..n + 1] == steps;
    ApplyLookup(RunSteps(init).value, steps[n], k);
    if i < n {
      assert init[i] == steps[i];
      assert forall j :: i < j < n ==> init[j] == steps[j];
      RunLastWins(init, i, k, v);
    }
  }

  /** The loop never produces a key twice. */
  lemma {:induction false} RunDistinct(steps: seq<Step>)
    requires RunSteps(steps).Ok?
    ensures DistinctKeys(RunSteps(steps).value)
    decreases |steps|
  {
    if steps != [] {
      var init := steps[..|steps| - 1];
      RunDistinct(init);
      if steps[|steps| - 1].value.Some? {
        var (k, v) := steps[|steps| - 1].value.value;
        AssignKeepsDistinct(RunSteps(init).value, k, v);
      }
    }
  }

  /** The filter chain keeps exactly the qualifying products, skips every
      product of another family without reading it, and raises only
      KeyErrors. */
  lemma ScreenKeepsQualifying(p: Product, os: string, currentOnly: bool)
    ensures Screen(p, os, currentOnly) == Ok(true) <==> Qualifies(p, os, currentOnly)
    ensures p.productFamily != Some(ComputeInstance) ==> Screen(p, os, currentOnly) == Ok(false)
    ensures Screen(p, os, currentOnly).Err? ==> Screen(p, os, currentOnly).error.KeyError?
  {
  }

  /** A kept product's price is the USD entry of the first price dimension
      of its first on-demand term, under its `instanceType` attribute. */
  lemma PricedIsFirstUsdPrice(c: Catalog, pid: string, p: Product)
    requires Priced(c, pid, p).Ok?
    ensures OnDemandTerms(c, pid).Ok? && OnDemandTerms(c, pid).value != []
    ensures var dimensions := OnDemandTerms(c, pid).value[0].1.priceDimensions;
            && dimensions.Some? && dimensions.value != []
            && dimensions.value[0].1.pricePerUnit.Some?
            && Lookup(dimensions.value[0].1.pricePerUnit.value, Usd) == Some(Priced(c, pid, p).value.1)
    ensures Attr(p, "instanceType") == Ok(Priced(c, pid, p).value.0)
  {
  }

  /** What one iteration does with a product: a qualifying product is kept
      with its price, or raises what reading the price raises; any other
      product is skipped, or raises a KeyError from the filters, whatever
      the catalog's terms hold. */
  lemma ContributionOfProduct(c: Catalog, entry: (string, Product), os: string, currentOnly: bool)
    ensures Qualifies(entry.1, os, currentOnly) ==>
              Contribution(c, entry, os, currentOnly) ==
                if Priced(c, entry.0, entry.1).Ok? then Ok(Some(Priced(c, entry.0, entry.1).value))
                else Err(Priced(c, entry.0, entry.1).error)
    ensures !Qualifies(entry.1, os, currentOnly) ==>
              && (Contribution(c, entry, os, currentOnly).Ok? ==> Contribution(c, entry, os, currentOnly) == Ok(None))
              && (Contribution(c, entry, os, currentOnly).Err? ==> Contribution(c, entry, os, currentOnly).error.KeyError?)
              && forall c' :: Contribution(c', entry, os, currentOnly) == Contribution(c, entry, os, currentOnly)
  {
    ScreenKeepsQualifying(entry.1, os, currentOnly);
  }

  /** An iteration that assigns `k` is one over a qualifying product whose
      instance type is `k`. */
  lemma AssignsOnlyQualifying(c: Catalog, entry: (string, Product), os: string, currentOnly: bool, k: string)
    ensures Assigns(Contribution(c, entry, os, currentOnly), k) <==>
              && Qualifies(entry.1, os, currentOnly)
              && Priced(c, entry.0, entry.1).Ok?
              && Attr(entry.1, "instanceType") == Ok(k)
  {
    ContributionOfProduct(c, entry, os, currentOnly);
    if Priced(c, entry.0, entry.1).Ok? {
      PricedIsFirstUsdPrice(c, entry.0, entry.1);
    }
  }

  /** The extraction returns prices exactly when no product's iteration
      raises. */
  lemma ExtractSucceeds(c: Catalog, os: string, currentOnly: bool)
    requires c.products.Some?
    ensures var ps := c.products.value;
            Extract(c, os, currentOnly).Ok? <==>
              forall i :: 0 <= i < |ps| ==> Contribution(c, ps[i], os, currentOnly).Ok?
  {
    RunSucceeds(Steps(c, c.products.value, os, currentOnly));
  }

  /** An extraction that raises raises the error of the first product, in
      catalog order, whose iteration raises; a catalog without `products`
      raises KeyError('products'). */
  lemma ExtractRaisesFirstError(c: Catalog, os: string, currentOnly: bool)
    requires Extract(c, os, currentOnly).Err?
    ensures c.products.None? ==> Extract(c, os, currentOnly) == Err(KeyError("products"))
    ensures c.products.Some? ==>
              var ps := c.products.value;
              exists i :: && 0 <= i < |ps| && Contribution(c, ps[i], os, currentOnly).Err?
                          && Extract(c, os, currentOnly) == Err(Contribution(c, ps[i], os, currentOnly).error)
                          && forall j :: 0 <= j < i ==> Contribution(c, ps[j], os, currentOnly).Ok?
  {
    if c.products.Some? {
      var steps := Steps(c, c.products.value, os, currentOnly);
      RunRaisesFirstError(steps);
      var i :| && 0 <= i < |steps| && steps[i].Err?
               && RunSteps(steps) == Err(steps[i].error)
               && forall j :: 0 <= j < i ==> steps[j].Ok?;
      assert steps[i] == Contribution(c, c.products.value[i], os, currentOnly);
    }
  }

  /** A qualifying product whose on-demand terms are missing makes the whole
      extraction raise. */
  lemma MissingOnDemandEntryFails(c: Catalog, os: string, currentOnly: bool, i: int)
    requires c.products.Some? && 0 <= i < |c.products.value|
    requires Qualifies(c.products.value[i].1, os, currentOnly)
    requires OnDemandTerms(c, c.products.value[i].0).Err?
    ensures Extract(c, os, currentOnly).Err?
  {
    var ps := c.products.value;
    ContributionOfProduct(c, ps[i], os, currentOnly);
    ExtractSucceeds(c, os, currentOnly);
  }

  /** The instance types in the result are exactly those of the qualifying
      products. */
  lemma ExtractedKeysQualify(c: Catalog, os: string, currentOnly: bool, k: string)
    requires Extract(c, os, currentOnly).Ok?
    ensures var ps := c.products.value;
            k in Keys(Extract(c, os, currentOnly).value) <==>
              exists i :: && 0 <= i < |ps| && Qualifies(ps[i].1, os, currentOnly)
                          && Attr(ps[i].1, "instanceType") == Ok(k)
  {
    var ps := c.products.value;
    var steps := Steps(c, ps, os, currentOnly);
    RunKeys(steps, k);
    RunSucceeds(steps);
    forall i | 0 <= i < |ps|
      ensures Assigns(steps[i], k) <==> Qualifies(ps[i].1, os, currentOnly) && Attr(ps[i].1, "instanceType") == Ok(k)
    {
      AssignsOnlyQualifying(c, ps[i], os, currentOnly, k);
      ContributionOfProduct(c, ps[i], os, currentOnly);
    }
  }

  /** Several qualifying products may share an instance type; the price in
      the result is the one of the last of them in catalog order. */
  lemma LastQualifyingProductWins(c: Catalog, os: string, currentOnly: bool, i: int)
    requires Extract(c, os, currentOnly).Ok?
    requires 0 <= i < |c.products.value| && Qualifies(c.products.value[i].1, os, currentOnly)
    requires forall j :: i < j < |c.products.value| && Qualifies(c.products.value[j].1, os, currentOnly) ==>
               Attr(c.products.value[j].1, "instanceType") != Attr(c.products.value[i].1, "instanceType")
    ensures var ps := c.products.value;
            && Priced(c, ps[i].0, ps[i].1).Ok?
            && Lookup(Extract(c, os, currentOnly).value, Priced(c, ps[i].0, ps[i].1).value.0)
                 == Some(Priced(c, ps[i].0, ps[i].1).value.1)
  {
    var ps := c.products.value;
    var steps := Steps(c, ps, os, currentOnly);
    RunSucceeds(steps);
    ContributionOfProduct(c, ps[i], os, currentOnly);
    var (k, v) := Priced(c, ps[i].0, ps[i].1).value;
    AssignsOnlyQualifying(c, ps[i], os, currentOnly, k);
    forall j | i < j < |steps|
      ensures !Assigns(steps[j], k)
    {
      AssignsOnlyQualifying(c, ps[j], os, currentOnly, k);
    }
    RunLastWins(steps, i, k, v);
  }

  /** The result never holds an instance type twice. */
  lemma ExtractedKeysDistinct(c: Catalog, os: string, currentOnly: bool)
    requires Extract(c, os, currentOnly).Ok?
    ensures DistinctKeys(Extract(c, os, currentOnly).value)
  {
    RunDistinct(Steps(c, c.products.value, os, currentOnly));
  }

  /** Asking for current-generation instances only never adds an instance
      type. */
  lemma CurrentOnlyNarrows(c: Catalog, os: string, k: string)
    requires Extract(c, os, true).Ok? && Extract(c, os, false).Ok?
    ensures k in Keys(Extract(c, os, true).value) ==> k in Keys(Extract(c, os, false).value)
  {
    ExtractedKeysQualify(c, os, true, k);
    ExtractedKeysQualify(c, os, false, k);
  }

  /** Two product records that differ at most in `currentGeneration`. */
  ghost predicate AgreeButGeneration(p: Product, q: Product) {
    && p.productFamily == q.productFamily
    && forall key :: key != "currentGeneration" ==> Attr(p, key) == Attr(q, key)
  }

  /** Without `current_only`, a product's `currentGeneration` attribute,
      whatever it holds, does not change what its iteration does. */
  lemma GenerationIgnoredWhenNotCurrentOnly(c: Catalog, c': Catalog, entry: (string, Product),
                                            entry': (string, Product), os: string)
    requires entry.0 == entry'.0 && AgreeButGeneration(entry.1, entry'.1)
    requires OnDemandTerms(c, entry.0) == OnDemandTerms(c', entry.0)
    ensures Contribution(c, entry, os, false) == Contribution(c', entry', os, false)
  {
    var (pid, p) := entry;
    var p' := entry'.1;
    assert Attr(p, "tenancy") == Attr(p', "tenancy");
    assert Attr(p, "operatingSystem") == Attr(p', "operatingSystem");
    assert Attr(p, "preInstalledSw") == Attr(p', "preInstalledSw");
    assert Attr(p, "capacitystatus") == Attr(p', "capacitystatus");
    assert Attr(p, "instanceType") == Attr(p', "instanceType");
    ScreenReadsOnlyFilters(p, p', os);
    PricedReadsOnlyInstanceType(c, pid, p, p');
    PricedReadsOwnTerms(c, c', pid, p');
  }

  /** Without `current_only`, the extraction's result does not depend on
      any product's `currentGeneration`: catalogs with the same terms whose
      products agree pairwise on id, family and every other attribute give
      the same prices, or raise the same error. */
  lemma GenerationIgnoredByExtract(c: Catalog, c': Catalog, os: string)
    requires c.terms == c'.terms
    requires c.products.Some? <==> c'.products.Some?
    requires c.products.Some? ==>
               && |c.products.value| == |c'.products.value|
               && forall i :: 0 <= i < |c.products.value| ==>
                    && c.products.value[i].0 == c'.products.value[i].0
                    && AgreeButGeneration(c.products.value[i].1, c'.products.value[i].1)
    ensures Extract(c, os, false) == Extract(c', os, false)
  {
    if c.products.Some? {
      var ps, ps' := c.products.value, c'.products.value;
      forall i | 0 <= i < |ps|
        ensures Contribution(c, ps[i], os, false) == Contribution(c', ps'[i], os, false)
      {
        GenerationIgnoredWhenNotCurrentOnly(c, c', ps[i], ps'[i], os);
      }
      assert Steps(c, ps, os, false) == Steps(c', ps', os, false);
    }
  }

  /** Without `current_only` the filter chain looks at nothing but the
      family and four attributes. */
  lemma ScreenReadsOnlyFilters(p: Product, q: Product, os: string)
    requires p.productFamily == q.productFamily
    requires Attr(p, "tenancy") == Attr(q, "tenancy")
    requires Attr(p, "operatingSystem") == Attr(q, "operatingSystem")
    requires Attr(p, "preInstalledSw") == Attr(q, "preInstalledSw")
    requires Attr(p, "capacitystatus") == Attr(q, "capacitystatus")
    ensures Screen(p, os, false) == Screen(q, os, false)
  {
  }

  /** Of the product record, reading the price looks only at `instanceType`. */
  lemma PricedReadsOnlyInstanceType(c: Catalog, pid: string, p: Product, q: Product)
    requires Attr(p, "instanceType") == Attr(q, "instanceType")
    ensures Priced(c, pid, p) == Priced(c, pid, q)
  {
  }

  /** Reading a product's price looks at the catalog's terms for that
      product only. */
  lemma PricedReadsOwnTerms(c: Catalog, c': Catalog, pid: string, p: Product)
    requires OnDemandTerms(c, pid) == OnDemandTerms(c', pid)
    ensures Priced(c, pid, p) == Priced(c', pid, p)
  {
  }

  /** Whatever the terms hold for products the filters reject, the result is
      the same: only the terms of qualifying products are read. */
  lemma TermsOfRejectedProductsUnread(c: Catalog, c': Catalog, os: string, currentOnly: bool)
    requires c.products.Some? && c'.products == c.products
    requires forall i :: 0 <= i < |c.products.value| && Qualifies(c.products.value[i].1, os, currentOnly) ==>
               OnDemandTerms(c, c.products.value[i].0) == OnDemandTerms(c', c.products.value[i].0)
    ensures Extract(c, os, currentOnly) == Extract(c', os, currentOnly)
  {
    var ps := c.products.value;
    forall i | 0 <= i < |ps|
      ensures Contribution(c, ps[i], os, currentOnly) == Contribution(c', ps[i], os, currentOnly)
    {
      ContributionOfProduct(c, ps[i], os, currentOnly);
      if Qualifies(ps[i].1, os, currentOnly) {
        ContributionOfProduct(c', ps[i], os, currentOnly);
        PricedReadsOwnTerms(c, c', ps[i].0, ps[i].1);
      }
    }
    assert Steps(c, ps, os, currentOnly) == Steps(c', ps, os, currentOnly);
  }

  /** One row of the tool's output. The price stays the decimal string of
      the catalog. */
  datatype Row = Row(region: string, instance: string, price: string)

  /** The prices of one region, with `catalogOf` standing for downloading
      (or reading from the cache) and decoding the region's price list. */
  function RegionPrices(catalogOf: string -> Result<Catalog>, region: string, currentOnly: bool)
    : Result<Dict<string>>
  {
    var catalog :- catalogOf(region);
    Extract(catalog, DefaultOs, currentOnly)
  }

  /** The instance type passes the `--type` option: none was given, or one
      of the patterns matches it. */
  predicate Wanted(instance: string, instanceTypes: seq<string>) {
    instanceTypes == [] || WildcardMatch(instance, instanceTypes)
  }

  /** The rows the inner loop appends for one region: its prices in dict
      order, restricted to the wanted instance types. */
  function RegionRows(region: string, prices: Dict<string>, instanceTypes: seq<string>): seq<Row>
    decreases |prices|
  {
    if prices == [] then []
    else
      var (instance, price) := prices[|prices| - 1];
      RegionRows(region, prices[..|prices| - 1], instanceTypes) +
        (if Wanted(instance, instanceTypes) then [Row(region, instance, price)] else [])
  }

  /** A region's rows are its wanted entries, each carrying the region. */
  lemma {:induction false} RegionRowsMembers(region: string, prices: Dict<string>, instanceTypes: seq<string>, row: Row)
    ensures row in RegionRows(region, prices, instanceTypes) <==>
              row.region == region && (row.instance, row.price) in prices && Wanted(row.instance, instanceTypes)
    decreases |prices|
  {
    if prices != [] {
      var n := |prices| - 1;
      RegionRowsMembers(region, prices[..n], instanceTypes, row);
      assert prices == prices[..n] + [prices[n]];
      var (instance, price) := prices[n];
      var last := if Wanted(instance, instanceTypes) then [Row(region, instance, price)] else [];
      assert RegionRows(region, prices, instanceTypes) == RegionRows(region, prices[..n], instanceTypes) + last;
      assert row in last <==> row == Row(region, instance, price) && Wanted(instance, instanceTypes);
    }
  }

  /** Two rows share neither region nor instance type. */
  predicate NoRepeatedCell(rows: seq<Row>) {
    forall a, b :: 0 <= a < b < |rows| ==>
      rows[a].region != rows[b].region || rows[a].instance != rows[b].instance
  }

  /** A region's rows have distinct instance types, because its prices are a
      dict. */
  lemma {:induction false} RegionRowsDistinct(region: string, prices: Dict<string>, instanceTypes: seq<string>)
    requires DistinctKeys(prices)
    ensures NoRepeatedCell(RegionRows(region, prices, instanceTypes))
    decreases |prices|
  {
    if prices != [] {
      var n := |prices| - 1;
      var init := prices[..n];
      assert DistinctKeys(init) by {
        assert forall a :: 0 <= a < n ==> init[a] == prices[a];
      }
      RegionRowsDistinct(region, init, instanceTypes);
      var rows := RegionRows(region, init, instanceTypes);
      forall a | 0 <= a < |rows|
        ensures rows[a].instance != prices[n].0
      {
        RegionRowsMembers(region, init, instanceTypes, rows[a]);
        var m :| 0 <= m < n && init[m] == (rows[a].instance, rows[a].price);
        assert init[m] == prices[m];
      }
    }
  }

  /** Appending the rows of a region not seen before keeps the cells
      distinct. */
  lemma AppendRegionRows(rows: seq<Row>, more: seq<Row>, region: string)
    requires NoRepeatedCell(rows) && NoRepeatedCell(more)
    requires forall a :: 0 <= a < |rows| ==> rows[a].region != region
    requires forall b :: 0 <= b < |more| ==> more[b].region == region
    ensures NoRepeatedCell(rows + more)
  {
    var all := rows + more;
    forall a, b | 0 <= a < b < |all|
      ensures all[a].region != all[b].region || all[a].instance != all[b].instance
    {
      if b < |rows| {
        assert all[a] == rows[a] && all[b] == rows[b];
      } else if a >= |rows| {
        assert all[a] == more[a - |rows|] && all[b] == more[b - |rows|];
      } else {
        assert all[a] == rows[a] && all[b] == more[b - |rows|];
      }
    }
  }

  /** A row the tool outputs: a resolved region, an instance type with its
      price in that region's extraction, and a wanted instance type. */
  ghost predicate Selected(row: Row, regions: set<string>, instanceTypes: seq<string>, currentOnly: bool,
                           catalogOf: string -> Result<Catalog>)
  {
    && row.region in regions
    && RegionPrices(catalogOf, row.region, currentOnly).Ok?
    && Lookup(RegionPrices(catalogOf, row.region, currentOnly).value, row.instance) == Some(row.price)
    && Wanted(row.instance, instanceTypes)
  }

  /** Adding a region's rows to those of the regions `done` gives the rows
      of `done` and that region, still without a repeated cell. */
  lemma RowsOfOneMoreRegion(rows: seq<Row>, done: set<string>, region: string, prices: Dict<string>,
                            instanceTypes: seq<string>, currentOnly: bool, catalogOf: string -> Result<Catalog>)
    requires forall row :: row in rows <==> Selected(row, done, instanceTypes, currentOnly, catalogOf)
    requires forall a :: 0 <= a < |rows| ==> rows[a].region in done
    requires NoRepeatedCell(rows)
    requires region !in done && RegionPrices(catalogOf, region, currentOnly) == Ok(prices)
    requires DistinctKeys(prices)
    ensures var rows' := rows + RegionRows(region, prices, instanceTypes);
            && (forall row :: row in rows' <==> Selected(row, done + {region}, instanceTypes, currentOnly, catalogOf))
            && (forall a :: 0 <= a < |rows'| ==> rows'[a].region in done + {region})
            && NoRepeatedCell(rows')
  {
    var more := RegionRows(region, prices, instanceTypes);
    RegionRowsDistinct(region, prices, instanceTypes);
    forall b | 0 <= b < |more|
      ensures more[b].region == region
    {
      RegionRowsMembers(region, prices, instanceTypes, more[b]);
    }
    AppendRegionRows(rows, more, region);
    forall row
      ensures row in rows + more <==> Selected(row, done + {region}, instanceTypes, currentOnly, catalogOf)
    {
      RegionRowsMembers(region, prices, instanceTypes, row);
    }
  }

  /** The inner loop of `main`: appends a region's wanted entries. */
  method AppendRows(rows: seq<Row>, region: string, prices: Dict<string>, instanceTypes: seq<string>)
    returns (rows': seq<Row>)
    ensures rows' == rows + RegionRows(region, prices, instanceTypes)
  {
    rows' := rows;
    for j := 0 to |prices|
      invariant rows' == rows + RegionRows(region, prices[..j], instanceTypes)
    {
      var (instance, price) := prices[j];
      assert prices[..j + 1][..j] == prices[..j];
      if instanceTypes != [] && !WildcardMatch(instance, instanceTypes) {
        continue;
      }
      rows' := rows' + [Row(region, instance, price)];
    }
    assert prices[..|prices|] == prices;
  }

  /** The loop of `main` over a set of regions, taken in some order: the
      wanted entries of each region's prices. The first region whose price
      list cannot be fetched or read stops it. */
  method RowsForRegions(regions: set<string>, instanceTypes: seq<string>, currentOnly: bool,
                        catalogOf: string -> Result<Catalog>)
    returns (r: Result<seq<Row>>)
    ensures r.Ok? <==> forall region :: region in regions ==> RegionPrices(catalogOf, region, currentOnly).Ok?
    ensures r.Err? ==> exists region :: region in regions && RegionPrices(catalogOf, region, currentOnly) == Err(r.error)
    ensures r.Ok? ==> forall row :: row in r.value <==> Selected(row, regions, instanceTypes, currentOnly, catalogOf)
    ensures r.Ok? ==> NoRepeatedCell(r.value)
  {
    var remaining := regions;
    ghost var done: set<string> := {};
    var rows: seq<Row> := [];
    while remaining != {}
      invariant remaining <= regions && done == regions - remaining
      invariant forall region :: region in done ==> RegionPrices(catalogOf, region, currentOnly).Ok?
      invariant forall row :: row in rows <==> Selected(row, done, instanceTypes, currentOnly, catalogOf)
      invariant forall a :: 0 <= a < |rows| ==> rows[a].region in done
      invariant NoRepeatedCell(rows)
      decreases |remaining|
    {
      var region :| region in remaining;
      var catalog :- catalogOf(region);
      var prices :- GetInstanceOnDemandPrices(catalog, DefaultOs, currentOnly);
      assert RegionPrices(catalogOf, region, currentOnly) == Ok(prices);
      ExtractedKeysDistinct(catalog, DefaultOs, currentOnly);
      RowsOfOneMoreRegion(rows, done, region, prices, instanceTypes, currentOnly, catalogOf);
      rows := AppendRows(rows, region, prices, instanceTypes);
      remaining := remaining - {region};
      done := done + {region};
    }
    return Ok(rows);
  }
}
