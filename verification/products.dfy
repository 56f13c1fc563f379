/** Products: the `Product` record, its setters, and the product validator
    `isProductValid`. The list of parts a product reads is not part of the
    record: in the Java code it is one static list shared by every product,
    and it lives in the inventory store (`Inventory.Store.sharedParts`). */
module Products {
  import opened JavaLang
  import opened Rules
  import opened Parts

  /** A product. `ref` stands for the Java object's identity. */
  datatype Product = Product(
    ref: nat,
    id: Int32,
    name: Nullable<string>,
    price: real,
    inStock: Int32,
    min: Int32,
    max: Int32)

  /** The identity of the Java object a product value stands for. */
  function ProductRef(q: Product): nat {
    q.ref
  }

  /** `new Product()`: every property at its JavaFX default. */
  function NewProduct(ref: nat): (q: Product)
    ensures q.ref == ref && q.id == 0 && q.name.Null?
  {
    Product(ref, 0, Null, 0.0, 0, 0, 0)
  }

  // ---------------------------------------------------------------------
  // Setters. Each changes its own field and nothing else; reading the
  // field back gives the value set.
  // ---------------------------------------------------------------------

  function SetProductId(q: Product, v: Int32): (r: Product)
    ensures r.id == v && r.(id := q.id) == q
  {
    q.(id := v)
  }

  function SetProductName(q: Product, v: Nullable<string>): (r: Product)
    ensures r.name == v && r.(name := q.name) == q
  {
    q.(name := v)
  }

  function SetProductPrice(q: Product, v: real): (r: Product)
    ensures r.price == v && r.(price := q.price) == q
  {
    q.(price := v)
  }

  function SetProductInStock(q: Product, v: Int32): (r: Product)
    ensures r.inStock == v && r.(inStock := q.inStock) == q
  {
    q.(inStock := v)
  }

  function SetProductMin(q: Product, v: Int32): (r: Product)
    ensures r.min == v && r.(min := q.min) == q
  {
    q.(min := v)
  }

  function SetProductMax(q: Product, v: Int32): (r: Product)
    ensures r.max == v && r.(max := q.max) == q
  {
    q.(max := v)
  }

  /** Setting a field to the value it already holds leaves the product as
      it was, and of two writes to the same field the second wins. */
  lemma ProductSetterLaws(q: Product, a: Int32, b: Int32, x: Nullable<string>, y: Nullable<string>, c: real, d: real)
    ensures SetProductId(q, q.id) == q && SetProductName(q, q.name) == q
    ensures SetProductPrice(q, q.price) == q && SetProductInStock(q, q.inStock) == q
    ensures SetProductMin(q, q.min) == q && SetProductMax(q, q.max) == q
    ensures SetProductId(SetProductId(q, a), b) == SetProductId(q, b)
    ensures SetProductPrice(SetProductPrice(q, c), d) == SetProductPrice(q, d)
    ensures SetProductMin(SetProductMin(q, a), b) == SetProductMin(q, b)
    ensures SetProductMax(SetProductMax(q, a), b) == SetProductMax(q, b)
    ensures SetProductInStock(SetProductInStock(q, a), b) == SetProductInStock(q, b)
    ensures SetProductName(SetProductName(q, x), y) == SetProductName(q, y)
  {
  }

  // ---------------------------------------------------------------------
  // isProductValid
  // ---------------------------------------------------------------------

  /** The prices of `parts` added up from the first to the last. */
  function SumOfPrices(parts: seq<Part>): real {
    if |parts| == 0 then 0.0 else SumOfPrices(parts[..|parts| - 1]) + parts[|parts| - 1].price
  }

  /** The arguments of `isProductValid` apart from the message prefix. */
  datatype ProductForm = ProductForm(fields: Common, parts: seq<Part>)

  /** The rules checked for a product, in checking order. */
  const ProductRules: seq<Violation> := CommonRules + [TooFewParts, PartsCostExceedPrice]

  /** Whether the form breaks rule `v`, given the summed part prices. */
  predicate ProductBreaksWith(f: ProductForm, sumOfParts: real, v: Violation) {
    match v
    case TooFewParts => |f.parts| < 2
    case PartsCostExceedPrice => sumOfParts > f.fields.price
    case _ => BreaksCommon(f.fields, v)
  }

  predicate ProductBreaks(f: ProductForm, v: Violation) {
    ProductBreaksWith(f, SumOfPrices(f.parts), v)
  }

  /** The rules the form breaks, in checking order. */
  function ProductViolations(f: ProductForm): seq<Violation> {
    Select(ProductRules, v => ProductBreaks(f, v))
  }

  /** A product the validator accepts, stated field by field: the shared
      rules hold, it has at least two parts, and their prices add up to no
      more than its own price. */
  predicate ProductValid(f: ProductForm) {
    CommonValid(f.fields) && |f.parts| >= 2 && SumOfPrices(f.parts) <= f.fields.price
  }

  /** `Product.isProductValid`: sums the part prices, then appends to
      `errorMessage` the sentence of every rule the form breaks, all checks
      run and in a fixed order. */
  method IsProductValid(f: ProductForm, errorMessage: string) returns (r: string)
    ensures r == errorMessage + Render(ProductViolations(f))
    ensures r == errorMessage <==> ProductValid(f)
  {
    var sumOfParts := 0.0;
    var i := 0;
    while i < |f.parts|
      invariant 0 <= i <= |f.parts|
      invariant sumOfParts == SumOfPrices(f.parts[..i])
    {
      assert f.parts[..i + 1][..i] == f.parts[..i];
      sumOfParts := sumOfParts + f.parts[i].price;
      i := i + 1;
    }
    assert f.parts[..i] == f.parts;
    var broken := v => ProductBreaksWith(f, sumOfParts, v);
    SelectAgree(ProductRules, broken, v => ProductBreaks(f, v));
    ProductValidIff(f);
    r := AppendBroken(errorMessage, ProductRules, broken, Message);
  }

  lemma ProductRulesInCheckOrder()
    ensures InCheckOrder(ProductRules)
  {
  }

  /** A rule is reported exactly when the form breaks it. */
  lemma ProductViolationsExact(f: ProductForm, v: Violation)
    ensures v in ProductViolations(f) <==> v in ProductRules && ProductBreaks(f, v)
  {
  }

  /** The reports come in checking order, each rule at most once. */
  lemma ProductViolationsOrdered(f: ProductForm)
    ensures InCheckOrder(ProductViolations(f))
  {
    ProductRulesInCheckOrder();
    SelectKeepsOrder(ProductRules, v => ProductBreaks(f, v));
  }

  /** The product is valid exactly when no rule is reported. */
  lemma ProductValidIff(f: ProductForm)
    ensures ProductValid(f) <==> |ProductViolations(f)| == 0
  {
    if ProductValid(f) {
      ValidMeansNoReports(f);
    } else if |ProductViolations(f)| == 0 {
      NoReportsMeansValid(f);
    }
  }

  lemma ValidMeansNoReports(f: ProductForm)
    requires ProductValid(f)
    ensures |ProductViolations(f)| == 0
  {
    CommonValidIff(f.fields);
    forall v | v in ProductRules
      ensures !ProductBreaks(f, v)
    {
      assert v in CommonRules || v == TooFewParts || v == PartsCostExceedPrice;
    }
    SelectNone(ProductRules, v => ProductBreaks(f, v));
  }

  lemma NoReportsMeansValid(f: ProductForm)
    requires |ProductViolations(f)| == 0
    ensures ProductValid(f)
  {
    var vs := ProductViolations(f);
    forall v | v in CommonRules
      ensures !BreaksCommon(f.fields, v)
    {
      assert v in ProductRules && v !in vs;
    }
    CommonValidIff(f.fields);
    assert TooFewParts in ProductRules && PartsCostExceedPrice in ProductRules;
    assert TooFewParts !in vs && PartsCostExceedPrice !in vs;
  }

  /** Fewer than two parts is always reported. */
  lemma TooFewPartsReported(f: ProductForm)
    ensures TooFewParts in ProductViolations(f) <==> |f.parts| < 2
  {
    ProductViolationsExact(f, TooFewParts);
    assert TooFewParts in ProductRules;
  }

  /** The cost rule fires exactly when the part prices add up to strictly
      more than the product price; a sum equal to the price passes. */
  lemma PartsCostReported(f: ProductForm)
    ensures PartsCostExceedPrice in ProductViolations(f) <==> SumOfPrices(f.parts) > f.fields.price
  {
    ProductViolationsExact(f, PartsCostExceedPrice);
    assert PartsCostExceedPrice in ProductRules;
  }

  /** A product without parts is always told it needs two, and is told its
      parts cost too much only when its own price is negative, because the
      empty sum is 0. */
  lemma EmptyPartsList(f: ProductForm)
    requires |f.parts| == 0
    ensures TooFewParts in ProductViolations(f)
    ensures PartsCostExceedPrice in ProductViolations(f) <==> f.fields.price < 0.0
  {
    TooFewPartsReported(f);
    PartsCostReported(f);
  }

  /** A product that is fine in every other respect but has a single part
      is told exactly that it must contain at least two parts. */
  lemma SinglePartOnlyComplaint(f: ProductForm)
    requires CommonValid(f.fields) && |f.parts| == 1 && f.parts[0].price <= f.fields.price
    ensures ProductViolations(f) == [TooFewParts]
    ensures Render(ProductViolations(f)) == Message(TooFewParts)
  {
    var vs := ProductViolations(f);
    CommonValidIff(f.fields);
    assert SumOfPrices(f.parts) == f.parts[0].price by {
      assert f.parts[..0] == [];
    }
    TooFewPartsReported(f);
    forall w | w in vs
      ensures w == TooFewParts
    {
      ProductViolationsExact(f, w);
      assert w in CommonRules || w == TooFewParts || w == PartsCostExceedPrice;
    }
    ProductViolationsOrdered(f);
    SoleViolation(vs, TooFewParts);
    assert Render(vs) == Message(TooFewParts) + RenderWith(vs[1..], Message);
    assert vs[1..] == [];
  }

  /** The text returned determines which rules were broken. */
  lemma ProductMessageIdentifiesViolations(f: ProductForm, g: ProductForm, errorMessage: string)
    requires errorMessage + Render(ProductViolations(f)) == errorMessage + Render(ProductViolations(g))
    ensures ProductViolations(f) == ProductViolations(g)
  {
    CancelPrefix(errorMessage, Render(ProductViolations(f)), Render(ProductViolations(g)));
    RenderInjective(ProductViolations(f), ProductViolations(g));
  }

  /** The five shared rules behave the same for a part and a product with
      the same name, stock, price and bounds. */
  lemma SharedRulesAgree(pf: PartForm, qf: ProductForm, v: Violation)
    requires pf.fields == qf.fields && v in CommonRules
    ensures v in PartViolations(pf) <==> v in ProductViolations(qf)
  {
    PartViolationsExact(pf, v);
    ProductViolationsExact(qf, v);
    assert v in PartRules(pf.isOutsourced) && v in ProductRules;
    assert v == NameBlank || v == StockBelowOne || v == PriceNotPositive
        || v == MaxBelowMin || v == StockOutsideRange;
  }
}
