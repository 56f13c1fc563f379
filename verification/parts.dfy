/** Parts: the abstract `Part` record with its in-house and outsourced
    variants, their setters, and the part validator `isPartValid`. */
module Parts {
  import opened JavaLang
  import opened Rules

  /** A machine ID as `setMachineID` admits it: a non-negative `int`. */
  type MachineId = x: int | 0 <= x <= MaxInt32

  /** The variant field of a part. */
  datatype Source =
    | InHouse(machineId: MachineId)
    | Outsourced(companyName: Nullable<string>)

  /** A part. `ref` stands for the Java object's identity: the inventory's
      lists compare parts by reference, never by field values. */
  datatype Part = Part(
    ref: nat,
    id: Int32,
    name: Nullable<string>,
    price: real,
    inStock: Int32,
    min: Int32,
    max: Int32,
    source: Source)

  /** The identity of the Java object a part value stands for. */
  function PartRef(p: Part): nat {
    p.ref
  }

  /** `new InHousePart()`: every property at its JavaFX default. */
  function NewInHousePart(ref: nat): (p: Part)
    ensures p.ref == ref && p.source == InHouse(0)
  {
    Part(ref, 0, Null, 0.0, 0, 0, 0, InHouse(0))
  }

  /** `new OutsourcedPart()`: every property at its JavaFX default. */
  function NewOutsourcedPart(ref: nat): (p: Part)
    ensures p.ref == ref && p.source == Outsourced(Null)
  {
    Part(ref, 0, Null, 0.0, 0, 0, 0, Outsourced(Null))
  }

  // ---------------------------------------------------------------------
  // Setters. Each changes its own field and nothing else; reading the
  // field back gives the value set.
  // ---------------------------------------------------------------------

  function SetPartId(p: Part, v: Int32): (r: Part)
    ensures r.id == v && r.(id := p.id) == p
  {
    p.(id := v)
  }

  function SetPartName(p: Part, v: Nullable<string>): (r: Part)
    ensures r.name == v && r.(name := p.name) == p
  {
    p.(name := v)
  }

  function SetPartPrice(p: Part, v: real): (r: Part)
    ensures r.price == v && r.(price := p.price) == p
  {
    p.(price := v)
  }

  function SetPartInStock(p: Part, v: Int32): (r: Part)
    ensures r.inStock == v && r.(inStock := p.inStock) == p
  {
    p.(inStock := v)
  }

  function SetPartMin(p: Part, v: Int32): (r: Part)
    ensures r.min == v && r.(min := p.min) == p
  {
    p.(min := v)
  }

  function SetPartMax(p: Part, v: Int32): (r: Part)
    ensures r.max == v && r.(max := p.max) == p
  {
    p.(max := v)
  }

  /** Setting a field to the value it already holds leaves the part as it
      was, and of two writes to the same field the second wins. */
  lemma PartSetterLaws(p: Part, a: Int32, b: Int32, x: Nullable<string>, y: Nullable<string>, c: real, d: real)
    ensures SetPartId(p, p.id) == p && SetPartName(p, p.name) == p
    ensures SetPartPrice(p, p.price) == p && SetPartInStock(p, p.inStock) == p
    ensures SetPartMin(p, p.min) == p && SetPartMax(p, p.max) == p
    ensures SetPartId(SetPartId(p, a), b) == SetPartId(p, b)
    ensures SetPartPrice(SetPartPrice(p, c), d) == SetPartPrice(p, d)
    ensures SetPartMin(SetPartMin(p, a), b) == SetPartMin(p, b)
    ensures SetPartMax(SetPartMax(p, a), b) == SetPartMax(p, b)
    ensures SetPartInStock(SetPartInStock(p, a), b) == SetPartInStock(p, b)
    ensures SetPartName(SetPartName(p, x), y) == SetPartName(p, y)
  {
  }

  /** `OutsourcedPart.setCompanyName`. */
  function SetCompanyName(p: Part, v: Nullable<string>): (r: Part)
    requires p.source.Outsourced?
    ensures r.source.Outsourced? && r.source.companyName == v
    ensures r.(source := p.source) == p
  {
    p.(source := Outsourced(v))
  }

  /** The exception a setter can throw. */
  datatype Thrown = IllegalArgument(message: string)

  /** What a setter call leaves behind: the part afterwards, and the
      exception it threw, if any. */
  datatype SetOutcome = SetOutcome(part: Part, thrown: Option<Thrown>)

  /** `InHousePart.setMachineID`: a negative ID is refused with an
      `IllegalArgumentException` before anything is written, so the part
      keeps its old machine ID; any other ID, 0 included, is stored. */
  function SetMachineId(p: Part, v: Int32): (r: SetOutcome)
    requires p.source.InHouse?
    ensures r.thrown.Some? <==> v < 0
    ensures r.thrown.Some? ==> r.part == p
    ensures r.thrown.None? ==> r.part.source == InHouse(v) && r.part.(source := p.source) == p
  {
    if v < 0 then SetOutcome(p, Some(IllegalArgument("Machine ID cannot be negative")))
    else SetOutcome(p.(source := InHouse(v)), None)
  }

  // ---------------------------------------------------------------------
  // isPartValid
  // ---------------------------------------------------------------------

  /** The arguments of `isPartValid` apart from the message prefix:
      the shared fields, the variant flag, and the text of the variant
      field (a company name, or a machine ID still to be parsed). */
  datatype PartForm = PartForm(fields: Common, isOutsourced: bool, partDyn: Nullable<string>)

  /** The rules checked for a part, in checking order: the five shared
      rules, then the one variant check the flag selects. */
  function PartRules(isOutsourced: bool): seq<Violation> {
    CommonRules + VariantRules(isOutsourced)
  }

  function VariantRules(isOutsourced: bool): seq<Violation> {
    if isOutsourced then [CompanyNameBlank] else [MachineIdInvalid, MachineIdNotPositive]
  }

  /** Whether the form breaks rule `v`. */
  predicate PartBreaks(f: PartForm, v: Violation) {
    match v
    case CompanyNameBlank => IsBlank(f.partDyn)
    case MachineIdInvalid => ParseInt(f.partDyn).None?
    case MachineIdNotPositive => ParseInt(f.partDyn).Some? && ParseInt(f.partDyn).value <= 0
    case _ => BreaksCommon(f.fields, v)
  }

  /** The rules the form breaks, in checking order. */
  function PartViolations(f: PartForm): seq<Violation> {
    Select(PartRules(f.isOutsourced), v => PartBreaks(f, v))
  }

  /** A part the validator accepts, stated field by field: the shared rules
      hold, and either a company name that is not blank or a machine ID
      that parses to a positive `int`. */
  predicate PartValid(f: PartForm) {
    CommonValid(f.fields) &&
    if f.isOutsourced then f.partDyn.NonNull? && !AllTrimmable(f.partDyn.value)
    else ParseInt(f.partDyn).Some? && ParseInt(f.partDyn).value > 0
  }

  /** `Part.isPartValid`: appends to `errorMessage` the sentence of every
      rule the form breaks, all checks run and in a fixed order. */
  function IsPartValid(f: PartForm, errorMessage: string): (r: string)
    ensures r == errorMessage + Render(PartViolations(f))
    ensures r == errorMessage <==> PartValid(f)
  {
    PartValidIff(f);
    AppendBroken(errorMessage, PartRules(f.isOutsourced), v => PartBreaks(f, v), Message)
  }

  lemma PartRulesInCheckOrder(isOutsourced: bool)
    ensures InCheckOrder(PartRules(isOutsourced))
  {
  }

  /** A rule is reported exactly when it is checked for this variant and
      the form breaks it. */
  lemma PartViolationsExact(f: PartForm, v: Violation)
    ensures v in PartViolations(f) <==> v in PartRules(f.isOutsourced) && PartBreaks(f, v)
  {
  }

  /** The reports come in checking order, each rule at most once. */
  lemma PartViolationsOrdered(f: PartForm)
    ensures InCheckOrder(PartViolations(f))
  {
    PartRulesInCheckOrder(f.isOutsourced);
    SelectKeepsOrder(PartRules(f.isOutsourced), v => PartBreaks(f, v));
  }

  lemma VariantValidIff(f: PartForm)
    ensures (if f.isOutsourced then f.partDyn.NonNull? && !AllTrimmable(f.partDyn.value)
             else ParseInt(f.partDyn).Some? && ParseInt(f.partDyn).value > 0)
            <==> forall v :: v in VariantRules(f.isOutsourced) ==> !PartBreaks(f, v)
  {
    BlankIff(f.partDyn);
    if f.isOutsourced {
      assert PartBreaks(f, CompanyNameBlank) == IsBlank(f.partDyn);
      assert forall v :: v in VariantRules(true) <==> v == CompanyNameBlank;
    } else {
      var parsed := ParseInt(f.partDyn);
      assert !PartBreaks(f, MachineIdInvalid) <==> parsed.Some?;
      assert !PartBreaks(f, MachineIdNotPositive) <==> parsed.None? || parsed.value > 0;
      assert forall v :: v in VariantRules(false) <==> v == MachineIdInvalid || v == MachineIdNotPositive;
    }
  }

  lemma PartValidIff(f: PartForm)
    ensures PartValid(f) <==> |PartViolations(f)| == 0
  {
    var rules := PartRules(f.isOutsourced);
    CommonValidIff(f.fields);
    VariantValidIff(f);
    assert forall v :: v in CommonRules ==> PartBreaks(f, v) == BreaksCommon(f.fields, v);
    assert forall v :: v in rules <==> v in CommonRules || v in VariantRules(f.isOutsourced);
    if |PartViolations(f)| > 0 {
      var v := PartViolations(f)[0];
      assert v in rules && PartBreaks(f, v);
    }
  }

  /** Each of the five shared checks reports exactly its own condition:
      a null or whitespace-only name, a count below 1, a price of at most 0,
      `max < min`, and a count outside `[min, max]`. */
  lemma CommonChecksReported(f: PartForm)
    ensures NameBlank in PartViolations(f) <==> f.fields.name.Null? || AllTrimmable(f.fields.name.value)
    ensures StockBelowOne in PartViolations(f) <==> f.fields.inv < 1
    ensures PriceNotPositive in PartViolations(f) <==> f.fields.price <= 0.0
    ensures MaxBelowMin in PartViolations(f) <==> f.fields.max < f.fields.min
    ensures StockOutsideRange in PartViolations(f) <==> f.fields.inv < f.fields.min || f.fields.inv > f.fields.max
  {
    var c := f.fields;
    assert forall v :: v in CommonRules ==> v in PartRules(f.isOutsourced);
    BlankIff(c.name);
    PartViolationsExact(f, NameBlank);
    PartViolationsExact(f, StockBelowOne);
    PartViolationsExact(f, PriceNotPositive);
    PartViolationsExact(f, MaxBelowMin);
    PartViolationsExact(f, StockOutsideRange);
  }

  /** The variant check of an outsourced part: the company-name message
      appears exactly when the text is null or whitespace only. */
  lemma CompanyNameReported(f: PartForm)
    requires f.isOutsourced
    ensures CompanyNameBlank in PartViolations(f) <==> f.partDyn.Null? || AllTrimmable(f.partDyn.value)
  {
    BlankIff(f.partDyn);
    PartViolationsExact(f, CompanyNameBlank);
    assert CompanyNameBlank in PartRules(true);
  }

  /** The variant check of an in-house part parses the text once: text
      `Integer.parseInt` refuses gets the invalid message ... */
  lemma MachineIdInvalidReported(f: PartForm)
    requires !f.isOutsourced
    ensures MachineIdInvalid in PartViolations(f) <==> ParseInt(f.partDyn).None?
  {
    assert MachineIdInvalid in PartRules(false);
    assert PartBreaks(f, MachineIdInvalid) == ParseInt(f.partDyn).None?;
  }

  /** ... and a parsed value of 0 or below gets the not-positive message. */
  lemma MachineIdNotPositiveReported(f: PartForm)
    requires !f.isOutsourced
    ensures MachineIdNotPositive in PartViolations(f) <==> ParseInt(f.partDyn).Some? && ParseInt(f.partDyn).value <= 0
  {
    assert MachineIdNotPositive in PartRules(false);
    assert PartBreaks(f, MachineIdNotPositive) == (ParseInt(f.partDyn).Some? && ParseInt(f.partDyn).value <= 0);
  }

  /** An inventory count below 1, 0 included, is always reported. */
  lemma LowStockReported(f: PartForm)
    requires f.fields.inv < 1
    ensures StockBelowOne in PartViolations(f)
  {
    PartViolationsExact(f, StockBelowOne);
  }

  /** With `max < min` the range message always comes too. */
  lemma PartMaxBelowMinBreaksRange(f: PartForm)
    requires MaxBelowMin in PartViolations(f)
    ensures StockOutsideRange in PartViolations(f)
  {
    assert StockOutsideRange in PartRules(f.isOutsourced);
    assert PartBreaks(f, MaxBelowMin);
    assert PartBreaks(f, StockOutsideRange);
  }

  /** Exactly one variant check runs: an outsourced part is never told
      anything about a machine ID ... */
  lemma OutsourcedSkipsMachineId(f: PartForm)
    requires f.isOutsourced
    ensures MachineIdInvalid !in PartViolations(f) && MachineIdNotPositive !in PartViolations(f)
  {
    assert MachineIdInvalid !in PartRules(true) && MachineIdNotPositive !in PartRules(true);
  }

  /** ... and an in-house part never about a company name ... */
  lemma InHouseSkipsCompanyName(f: PartForm)
    requires !f.isOutsourced
    ensures CompanyNameBlank !in PartViolations(f)
  {
    assert CompanyNameBlank !in PartRules(false);
  }

  /** ... nor both that its machine ID is invalid and that it is not
      positive: the value is parsed once, and only a parsed value is
      compared with 0. */
  lemma MachineIdChecksExclusive(f: PartForm)
    ensures !(MachineIdInvalid in PartViolations(f) && MachineIdNotPositive in PartViolations(f))
  {
    var vs := PartViolations(f);
    assert MachineIdInvalid in vs ==> PartBreaks(f, MachineIdInvalid);
    assert MachineIdNotPositive in vs ==> PartBreaks(f, MachineIdNotPositive);
  }

  /** The text returned determines which rules were broken: two forms that
      produce the same message from the same prefix break the same rules. */
  lemma PartMessageIdentifiesViolations(f: PartForm, g: PartForm, errorMessage: string)
    requires IsPartValid(f, errorMessage) == IsPartValid(g, errorMessage)
    ensures PartViolations(f) == PartViolations(g)
  {
    CancelPrefix(errorMessage, Render(PartViolations(f)), Render(PartViolations(g)));
    RenderInjective(PartViolations(f), PartViolations(g));
  }

  /** The in-house part "Widget" with stock 10 between min 5 and max 20,
      price 2.50 and machine ID "3" passes validation. */
  lemma WidgetIsValid()
    ensures IsPartValid(PartForm(Common(NonNull("Widget"), 5, 20, 10, 2.5), false, NonNull("3")), "") == ""
  {
    var f := PartForm(Common(NonNull("Widget"), 5, 20, 10, 2.5), false, NonNull("3"));
    assert !AllTrimmable("Widget") by {
      assert !IsTrimmable("Widget"[0]);
    }
    assert DigitsValue("3") == 3 by {
      assert "3"[..0] == "";
    }
    assert PartValid(f);
  }

  /** The setter and the validator disagree on machine ID 0: the setter
      stores it, while the validator reports it as not greater than 0. */
  lemma MachineIdZeroSetButRejected(p: Part, fields: Common)
    requires p.source.InHouse?
    ensures SetMachineId(p, 0).thrown.None? && SetMachineId(p, 0).part.source == InHouse(0)
    ensures MachineIdNotPositive in PartViolations(PartForm(fields, false, NonNull(ShowInt(0))))
  {
    var f := PartForm(fields, false, NonNull(ShowInt(0)));
    ParseShowInt(0);
    PartViolationsExact(f, MachineIdNotPositive);
  }
}
