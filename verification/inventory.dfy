/** The process-wide inventory store: the list of parts, the list of
    products, the two ID counters, and the one parts list that every
    product reads (a static field of `Product` in the Java code, kept here
    with the rest of the global state). Each operation is a function from
    the store before to the store after; lookups and delete guards only
    read it. */
module Inventory {
  import opened JavaLang
  import opened Parts
  import opened Products
  import opened Lists

  datatype Store = Store(
    parts: seq<Part>,
    products: seq<Product>,
    partIdCount: Int32,
    productIdCount: Int32,
    sharedParts: seq<Part>)

  /** The store at start-up: empty lists and both counters at 0. */
  const Initial: Store := Store([], [], 0, 0, [])

  // ---------------------------------------------------------------------
  // The shared product parts list
  // ---------------------------------------------------------------------

  /** `getProductParts()` of product `q`: whatever product it is called on,
      the answer is the single shared list. */
  function ProductParts(s: Store, q: Product): seq<Part> {
    s.sharedParts
  }

  /** Every product answers `getProductParts()` with the same list: the
      one the store holds. */
  lemma ProductPartsShared(s: Store, q: Product, q': Product)
    ensures ProductParts(s, q) == ProductParts(s, q') == s.sharedParts
  {
  }

  /** `setProductParts(parts)` called on any product: replaces the shared
      list, so every product, not only `q`, now reads `parts`. */
  function SetProductParts(s: Store, q: Product, parts: seq<Part>): (r: Store)
    ensures forall q' :: ProductParts(r, q') == parts
    ensures r.(sharedParts := s.sharedParts) == s
  {
    s.(sharedParts := parts)
  }

  // ---------------------------------------------------------------------
  // Parts list
  // ---------------------------------------------------------------------

  /** `addPart`: appends, so the list grows by exactly one. */
  function AddPart(s: Store, p: Part): (r: Store)
    ensures |r.parts| == |s.parts| + 1
    ensures r.parts[..|s.parts|] == s.parts && r.parts[|s.parts|] == p
    ensures r.(parts := s.parts) == s
  {
    s.(parts := s.parts + [p])
  }

  /** `removePart`: removes the first element that is the object `p`;
      with no such element the store is unchanged. */
  function RemovePart(s: Store, p: Part): (r: Store)
    ensures IndexOfKey(s.parts, PartRef, p.ref) == -1 ==> r == s
    ensures IndexOfKey(s.parts, PartRef, p.ref) >= 0 ==>
      var k := IndexOfKey(s.parts, PartRef, p.ref);
      r.parts == s.parts[..k] + s.parts[k + 1..] && |r.parts| == |s.parts| - 1
    ensures r.(parts := s.parts) == s
  {
    s.(parts := RemoveKey(s.parts, PartRef, p.ref))
  }

  /** `updatePart(index, part)`: position `index` now holds `p`, every
      other position and the length are as before. */
  function UpdatePart(s: Store, index: int, p: Part): (r: Store)
    requires 0 <= index < |s.parts|
    ensures |r.parts| == |s.parts| && r.parts[index] == p
    ensures forall j :: 0 <= j < |s.parts| && j != index ==> r.parts[j] == s.parts[j]
    ensures r.(parts := s.parts) == s
  {
    s.(parts := s.parts[index := p])
  }

  // ---------------------------------------------------------------------
  // Products list
  // ---------------------------------------------------------------------

  /** `addProd`: appends, so the list grows by exactly one. */
  function AddProd(s: Store, q: Product): (r: Store)
    ensures |r.products| == |s.products| + 1
    ensures r.products[..|s.products|] == s.products && r.products[|s.products|] == q
    ensures r.(products := s.products) == s
  {
    s.(products := s.products + [q])
  }

  /** `removeProd`: removes the first element that is the object `q`;
      with no such element the store is unchanged. */
  function RemoveProd(s: Store, q: Product): (r: Store)
    ensures IndexOfKey(s.products, ProductRef, q.ref) == -1 ==> r == s
    ensures IndexOfKey(s.products, ProductRef, q.ref) >= 0 ==>
      var k := IndexOfKey(s.products, ProductRef, q.ref);
      r.products == s.products[..k] + s.products[k + 1..] && |r.products| == |s.products| - 1
    ensures r.(products := s.products) == s
  {
    s.(products := RemoveKey(s.products, ProductRef, q.ref))
  }

  /** `updateProd(index, product)`: position `index` now holds `q`, every
      other position and the length are as before. */
  function UpdateProd(s: Store, index: int, q: Product): (r: Store)
    requires 0 <= index < |s.products|
    ensures |r.products| == |s.products| && r.products[index] == q
    ensures forall j :: 0 <= j < |s.products| && j != index ==> r.products[j] == s.products[j]
    ensures r.(products := s.products) == s
  {
    s.(products := s.products[index := q])
  }

  /** Adding a part that is not in the list and then removing it gives back
      the store as it was. */
  lemma AddThenRemovePart(s: Store, p: Part)
    requires !HasKey(s.parts, PartRef, p.ref)
    ensures RemovePart(AddPart(s, p), p) == s
  {
    var xs := s.parts + [p];
    assert IndexOfKey(xs, PartRef, p.ref) == |s.parts| by {
      assert forall i :: 0 <= i < |s.parts| ==> xs[i] == s.parts[i];
      assert PartRef(xs[|s.parts|]) == p.ref;
    }
    assert xs[..|s.parts|] + xs[|s.parts| + 1..] == s.parts;
  }

  /** Adding a product that is not in the list and then removing it gives
      back the store as it was. */
  lemma AddThenRemoveProd(s: Store, q: Product)
    requires !HasKey(s.products, ProductRef, q.ref)
    ensures RemoveProd(AddProd(s, q), q) == s
  {
    var xs := s.products + [q];
    assert IndexOfKey(xs, ProductRef, q.ref) == |s.products| by {
      assert forall i :: 0 <= i < |s.products| ==> xs[i] == s.products[i];
      assert ProductRef(xs[|s.products|]) == q.ref;
    }
    assert xs[..|s.products|] + xs[|s.products| + 1..] == s.products;
  }

  /** Writing back the element already at a position changes nothing. */
  lemma UpdatePartWithSameIsIdentity(s: Store, index: int)
    requires 0 <= index < |s.parts|
    ensures UpdatePart(s, index, s.parts[index]) == s
  {
    assert s.parts[index := s.parts[index]] == s.parts;
  }

  /** Writing back the product already at a position changes nothing. */
  lemma UpdateProdWithSameIsIdentity(s: Store, index: int)
    requires 0 <= index < |s.products|
    ensures UpdateProd(s, index, s.products[index]) == s
  {
    assert s.products[index := s.products[index]] == s.products;
  }

  // ---------------------------------------------------------------------
  // ID counters
  // ---------------------------------------------------------------------

  /** A store after a counter call, with the ID the call returned. */
  datatype Issued = Issued(store: Store, id: Int32)

  /** `getPartIDCount`: increments the part counter as a Java `int`, then
      returns it; the product counter is untouched. */
  function NextPartId(s: Store): (r: Issued)
    ensures r.store == s.(partIdCount := r.id)
    ensures s.partIdCount < MaxInt32 ==> r.id == s.partIdCount + 1
    ensures s.partIdCount == MaxInt32 ==> r.id == MinInt32
  {
    var n := Wrap32(s.partIdCount + 1);
    Issued(s.(partIdCount := n), n)
  }

  /** `getProdIDCount`: increments the product counter as a Java `int`,
      then returns it; the part counter is untouched. */
  function NextProductId(s: Store): (r: Issued)
    ensures r.store == s.(productIdCount := r.id)
    ensures s.productIdCount < MaxInt32 ==> r.id == s.productIdCount + 1
    ensures s.productIdCount == MaxInt32 ==> r.id == MinInt32
  {
    var n := Wrap32(s.productIdCount + 1);
    Issued(s.(productIdCount := n), n)
  }

  /** The two counters are independent: drawing a part ID and a product ID
      leaves the same store in either order, and the two calls return the
      same IDs in either order. */
  lemma CountersIndependent(s: Store)
    ensures NextProductId(NextPartId(s).store).store == NextPartId(NextProductId(s).store).store
    ensures NextPartId(NextProductId(s).store).id == NextPartId(s).id
    ensures NextProductId(NextPartId(s).store).id == NextProductId(s).id
  {
  }

  /** The store after `k` calls of `getPartIDCount`, and the IDs they returned. */
  datatype Batch = Batch(store: Store, ids: seq<Int32>)

  function IssuePartIds(s: Store, k: nat): (r: Batch)
    ensures |r.ids| == k
    decreases k
  {
    if k == 0 then Batch(s, [])
    else
      var first := NextPartId(s);
      var rest := IssuePartIds(first.store, k - 1);
      Batch(rest.store, [first.id] + rest.ids)
  }

  /** Until the counter would pass the largest `int`, `k` calls return the
      next `k` numbers in order and change nothing but the part counter. */
  lemma {:induction false} PartIdsCountUp(s: Store, k: nat)
    decreases k
    requires s.partIdCount + k <= MaxInt32
    ensures forall j :: 0 <= j < k ==> IssuePartIds(s, k).ids[j] == s.partIdCount + 1 + j
    ensures IssuePartIds(s, k).store == s.(partIdCount := s.partIdCount + k)
  {
    if k > 0 {
      var first := NextPartId(s);
      PartIdsCountUp(first.store, k - 1);
    }
  }

  /** From start-up the part IDs handed out are 1, 2, 3, ..., each larger
      than every earlier one. */
  lemma PartIdsFromStart(k: nat)
    requires k <= MaxInt32
    ensures forall j :: 0 <= j < k ==> IssuePartIds(Initial, k).ids[j] == j + 1
    ensures forall i, j :: 0 <= i < j < k ==> IssuePartIds(Initial, k).ids[i] < IssuePartIds(Initial, k).ids[j]
    ensures IssuePartIds(Initial, k).store.productIdCount == 0
  {
    PartIdsCountUp(Initial, k);
  }

  // ---------------------------------------------------------------------
  // Lookup
  // ---------------------------------------------------------------------

  /** Whether `lookupPart(term)` counts part `p` as a hit: by ID when the
      term parses as an `int` (names are then never compared), otherwise by
      name, ignoring case. */
  predicate PartMatches(term: string, p: Part) {
    PartMatchesParsed(ParseInt(NonNull(term)), term, p)
  }

  /** `PartMatches` with the result of parsing the term already at hand. */
  predicate PartMatchesParsed(parsed: Option<Int32>, term: string, p: Part) {
    match parsed
    case Some(n) => p.id == n
    case None => p.name.NonNull? && LowerAscii(term) == LowerAscii(p.name.value)
  }

  /** Whether `lookupProd(term)` counts product `q` as a hit: by ID when the
      term parses as an `int`, otherwise by exact name. */
  predicate ProductMatches(term: string, q: Product) {
    ProductMatchesParsed(ParseInt(NonNull(term)), term, q)
  }

  predicate ProductMatchesParsed(parsed: Option<Int32>, term: string, q: Product) {
    match parsed
    case Some(n) => q.id == n
    case None => q.name == NonNull(term)
  }

  /** `lookupPart`: scans the whole list, keeping the position of the latest
      hit, so the result is the last matching position, or -1 when no part
      matches. Comparing names calls `toLowerCase` on each part name, which
      the Java code cannot do on a null name. */
  method LookupPart(s: Store, term: string) returns (index: int)
    requires !IsInt(term) ==> forall i :: 0 <= i < |s.parts| ==> s.parts[i].name.NonNull?
    ensures index == -1 <==> forall i :: 0 <= i < |s.parts| ==> !PartMatches(term, s.parts[i])
    ensures index != -1 ==> 0 <= index < |s.parts| && PartMatches(term, s.parts[index])
    ensures index != -1 ==> forall j :: index < j < |s.parts| ==> !PartMatches(term, s.parts[j])
  {
    var isFound;
    if IsInt(term) {
      isFound, index := ScanPartIds(s.parts, term);
    } else {
      isFound, index := ScanPartNames(s.parts, term);
    }
    if !isFound {
      index := -1;
    }
  }

  /** The ID loop of `lookupPart`: the term parses, and each part's ID is
      compared with the parsed value. */
  method ScanPartIds(parts: seq<Part>, term: string) returns (isFound: bool, index: int)
    requires IsInt(term)
    ensures isFound <==> exists j :: 0 <= j < |parts| && PartMatches(term, parts[j])
    ensures isFound ==> 0 <= index < |parts| && PartMatches(term, parts[index])
    ensures isFound ==> forall j :: index < j < |parts| ==> !PartMatches(term, parts[j])
  {
    var n := ParseInt(NonNull(term)).value;
    isFound := false;
    index := 0;
    var i := 0;
    while i < |parts|
      invariant 0 <= i <= |parts|
      invariant isFound <==> exists j :: 0 <= j < i && parts[j].id == n
      invariant isFound ==> 0 <= index < i && parts[index].id == n
      invariant isFound ==> forall j :: index < j < i ==> parts[j].id != n
    {
      if n == parts[i].id {
        index := i;
        isFound := true;
      }
      i := i + 1;
    }
  }

  /** The name loop of `lookupPart`: the term does not parse; it is
      lower-cased again on every pass and compared with each part name
      lower-cased. */
  method ScanPartNames(parts: seq<Part>, term: string) returns (isFound: bool, index: int)
    requires !IsInt(term)
    requires forall i :: 0 <= i < |parts| ==> parts[i].name.NonNull?
    ensures isFound <==> exists j :: 0 <= j < |parts| && PartMatches(term, parts[j])
    ensures isFound ==> 0 <= index < |parts| && PartMatches(term, parts[index])
    ensures isFound ==> forall j :: index < j < |parts| ==> !PartMatches(term, parts[j])
  {
    var key := LowerAscii(term);
    var searchTerm := term;
    isFound := false;
    index := 0;
    var i := 0;
    while i < |parts|
      invariant 0 <= i <= |parts|
      invariant LowerAscii(searchTerm) == key
      invariant isFound <==> exists j :: 0 <= j < i && key == LowerAscii(parts[j].name.value)
      invariant isFound ==> 0 <= index < i && key == LowerAscii(parts[index].name.value)
      invariant isFound ==> forall j :: index < j < i ==> key != LowerAscii(parts[j].name.value)
    {
      LowerAsciiIgnoresCase(searchTerm);
      searchTerm := LowerAscii(searchTerm);
      if searchTerm == LowerAscii(parts[i].name.value) {
        index := i;
        isFound := true;
      }
      i := i + 1;
    }
  }

  /** `lookupProd`: the same scan as `lookupPart`, but names must match
      exactly, case included; a product whose name is null never matches. */
  method LookupProd(s: Store, term: string) returns (index: int)
    ensures index == -1 <==> forall i :: 0 <= i < |s.products| ==> !ProductMatches(term, s.products[i])
    ensures index != -1 ==> 0 <= index < |s.products| && ProductMatches(term, s.products[index])
    ensures index != -1 ==> forall j :: index < j < |s.products| ==> !ProductMatches(term, s.products[j])
  {
    ghost var parsed := ParseInt(NonNull(term));
    var isFound := false;
    index := 0;
    if IsInt(term) {
      var i := 0;
      while i < |s.products|
        invariant 0 <= i <= |s.products|
        invariant isFound <==> exists j :: 0 <= j < i && ProductMatchesParsed(parsed, term, s.products[j])
        invariant isFound ==> 0 <= index < i && ProductMatchesParsed(parsed, term, s.products[index])
        invariant isFound ==> forall j :: index < j < i ==> !ProductMatchesParsed(parsed, term, s.products[j])
      {
        if ParseInt(NonNull(term)).value == s.products[i].id {
          index := i;
          isFound := true;
        }
        i := i + 1;
      }
    } else {
      var i := 0;
      while i < |s.products|
        invariant 0 <= i <= |s.products|
        invariant isFound <==> exists j :: 0 <= j < i && ProductMatchesParsed(parsed, term, s.products[j])
        invariant isFound ==> 0 <= index < i && ProductMatchesParsed(parsed, term, s.products[index])
        invariant isFound ==> forall j :: index < j < i ==> !ProductMatchesParsed(parsed, term, s.products[j])
      {
        if NonNull(term) == s.products[i].name {
          index := i;
          isFound := true;
        }
        i := i + 1;
      }
    }
    if !isFound {
      index := -1;
    }
  }

  // ---------------------------------------------------------------------
  // Delete guards
  // ---------------------------------------------------------------------

  /** `validatePartDelete`: true when some product's parts list contains the
      object `p`. Since every product reads the shared list, that is: there
      is at least one product and the shared list contains `p`. */
  method ValidatePartDelete(s: Store, p: Part) returns (isFound: bool)
    ensures isFound <==> exists i :: 0 <= i < |s.products| && HasKey(ProductParts(s, s.products[i]), PartRef, p.ref)
    ensures isFound <==> |s.products| > 0 && HasKey(s.sharedParts, PartRef, p.ref)
  {
    isFound := false;
    var i := 0;
    while i < |s.products|
      invariant 0 <= i <= |s.products|
      invariant isFound <==> exists j :: 0 <= j < i && HasKey(ProductParts(s, s.products[j]), PartRef, p.ref)
    {
      if IndexOfKey(ProductParts(s, s.products[i]), PartRef, p.ref) >= 0 {
        isFound := true;
      }
      i := i + 1;
    }
    if |s.products| > 0 {
      assert ProductParts(s, s.products[0]) == s.sharedParts;
    }
  }

  /** `validateProductDelete`: true when some product with the same ID as
      `q` has a non-empty parts list. Since every product reads the shared
      list, that is: some product has `q`'s ID and the shared list is not
      empty. */
  method ValidateProductDelete(s: Store, q: Product) returns (isFound: bool)
    ensures isFound <==> exists i :: 0 <= i < |s.products| && s.products[i].id == q.id
                                     && |ProductParts(s, s.products[i])| > 0
    ensures isFound <==> (exists i :: 0 <= i < |s.products| && s.products[i].id == q.id)
                         && |s.sharedParts| > 0
  {
    isFound := false;
    var productId := q.id;
    var i := 0;
    while i < |s.products|
      invariant 0 <= i <= |s.products|
      invariant isFound <==> exists j :: 0 <= j < i && s.products[j].id == productId
                                         && |ProductParts(s, s.products[j])| > 0
    {
      if s.products[i].id == productId {
        if |ProductParts(s, s.products[i])| != 0 {
          isFound := true;
        }
      }
      i := i + 1;
    }
  }

  /** The guards look at the shared list only: once any product exists,
      handing one product a list that contains `p` blocks deleting `p`,
      whatever products the list was meant for. */
  lemma SharedListBlocksEveryPart(s: Store, q: Product, parts: seq<Part>, p: Part)
    requires |s.products| > 0 && HasKey(parts, PartRef, p.ref)
    ensures exists i :: 0 <= i < |SetProductParts(s, q, parts).products|
                        && HasKey(ProductParts(SetProductParts(s, q, parts), SetProductParts(s, q, parts).products[i]), PartRef, p.ref)
  {
    var r := SetProductParts(s, q, parts);
    assert HasKey(ProductParts(r, r.products[0]), PartRef, p.ref);
  }
}
