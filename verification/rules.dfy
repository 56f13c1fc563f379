/** The rule violations the part and product validators report, the fixed
    text each one appends to the error message, and the five rules on name,
    stock, price and min/max that both validators share. */
module Rules {
  import opened JavaLang

  /** Every rule a validator can report, declared in the order the
      validators check them. */
  datatype Violation =
    | NameBlank
    | StockBelowOne
    | PriceNotPositive
    | MaxBelowMin
    | StockOutsideRange
    | CompanyNameBlank
    | MachineIdInvalid
    | MachineIdNotPositive
    | TooFewParts
    | PartsCostExceedPrice

  /** The sentence a validator appends when the rule is broken. The longer
      sentences are written as two joined literals, which is the same text;
      it keeps the first sixteen characters in a short literal that the
      verifier can index directly (see `MessageFingerprint`). */
  function Message(v: Violation): string {
    match v
    case NameBlank => "The name field is blank. "
    case StockBelowOne => "The inventory count " + "must be greater than 0. "
    case PriceNotPositive => "The price must " + "be greater than $0. "
    case MaxBelowMin => "The Max must be greater " + "than or equal to the Min. "
    case StockOutsideRange => "The inventory must be between " + "the Min and Max values. "
    case CompanyNameBlank => "Company Name is blank. "
    case MachineIdInvalid => "Machine ID is invalid. "
    case MachineIdNotPositive => "Machine ID must " + "be greater than 0. "
    case TooFewParts => "The product must " + "contain at least 2 parts. "
    case PartsCostExceedPrice => "Price must be greater than " + "the sum of all part costs. "
  }

  /** Position of a rule in the validators' checking order. */
  function Rank(v: Violation): nat {
    match v
    case NameBlank => 0
    case StockBelowOne => 1
    case PriceNotPositive => 2
    case MaxBelowMin => 3
    case StockOutsideRange => 4
    case CompanyNameBlank => 5
    case MachineIdInvalid => 6
    case MachineIdNotPositive => 7
    case TooFewParts => 8
    case PartsCostExceedPrice => 9
  }

  /** The list is in checking order and names no rule twice. */
  predicate InCheckOrder(vs: seq<Violation>) {
    forall i, j :: 0 <= i < j < |vs| ==> Rank(vs[i]) < Rank(vs[j])
  }

  /** The text of a list of violations, one sentence each and in list
      order, where `sentence` gives the text of a single violation. */
  function RenderWith(vs: seq<Violation>, sentence: Violation -> string): string {
    if |vs| == 0 then "" else sentence(vs[0]) + RenderWith(vs[1..], sentence)
  }

  /** The text the validators append for a list of violations. */
  function Render(vs: seq<Violation>): (r: string)
    ensures |r| == 0 <==> |vs| == 0
  {
    RenderWith(vs, Message)
  }

  /** The members of `candidates` that are `broken`, in their original order. */
  function Select(candidates: seq<Violation>, broken: Violation -> bool): (r: seq<Violation>)
    ensures forall v :: v in r <==> v in candidates && broken(v)
  {
    if |candidates| == 0 then []
    else
      var rest := Select(candidates[1..], broken);
      assert forall v :: v in candidates[1..] ==> v in candidates;
      if broken(candidates[0]) then [candidates[0]] + rest else rest
  }

  /** Selecting keeps the checking order of the candidates. */
  lemma {:induction false} SelectKeepsOrder(candidates: seq<Violation>, broken: Violation -> bool)
    requires InCheckOrder(candidates)
    ensures InCheckOrder(Select(candidates, broken))
  {
    if |candidates| > 0 {
      var rest := Select(candidates[1..], broken);
      assert InCheckOrder(candidates[1..]);
      SelectKeepsOrder(candidates[1..], broken);
      forall v | v in rest
        ensures Rank(candidates[0]) < Rank(v)
      {
        var k :| 0 <= k < |candidates[1..]| && candidates[1..][k] == v;
        assert candidates[k + 1] == v;
      }
    }
  }

  /** Every sentence is at least 23 characters long, and the characters at
      positions 0 and 15 already tell the sentences apart. */
  function Fingerprint(v: Violation): (char, char) {
    match v
    case NameBlank => ('T', 'i')
    case StockBelowOne => ('T', 'o')
    case PriceNotPositive => ('T', 'b')
    case MaxBelowMin => ('T', ' ')
    case StockOutsideRange => ('T', 'u')
    case CompanyNameBlank => ('C', ' ')
    case MachineIdInvalid => ('M', 'n')
    case MachineIdNotPositive => ('M', ' ')
    case TooFewParts => ('T', 't')
    case PartsCostExceedPrice => ('P', 'r')
  }

  lemma MessageFingerprint(v: Violation)
    ensures |Message(v)| >= 23
    ensures (Message(v)[0], Message(v)[15]) == Fingerprint(v)
  {
    match v
    case NameBlank =>
    case StockBelowOne =>
    case PriceNotPositive =>
    case MaxBelowMin =>
    case StockOutsideRange =>
    case CompanyNameBlank =>
    case MachineIdInvalid =>
    case MachineIdNotPositive =>
    case TooFewParts =>
    case PartsCostExceedPrice =>
  }

  /** No sentence is the beginning of another one. */
  lemma MessagesPrefixFree(v: Violation, w: Violation)
    requires v != w
    ensures !(Message(v) <= Message(w))
  {
    MessageFingerprint(v);
    MessageFingerprint(w);
    assert Fingerprint(v) != Fingerprint(w);
  }

  lemma SamePrefix(x: string, rx: string, y: string, ry: string)
    requires x + rx == y + ry && |x| <= |y|
    ensures x <= y
  {
    assert x == (x + rx)[..|x|] == (y + ry)[..|x|] == y[..|x|];
  }

  lemma CancelPrefix(x: string, rx: string, ry: string)
    requires x + rx == x + ry
    ensures rx == ry
  {
    assert rx == (x + rx)[|x|..] == (x + ry)[|x|..] == ry;
  }

  lemma HeadsAgree(a: seq<Violation>, b: seq<Violation>)
    requires |a| > 0 && |b| > 0 && Render(a) == Render(b)
    ensures a[0] == b[0]
  {
    var ma, mb := Message(a[0]), Message(b[0]);
    if a[0] != b[0] {
      if |ma| <= |mb| {
        SamePrefix(ma, Render(a[1..]), mb, Render(b[1..]));
        MessagesPrefixFree(a[0], b[0]);
      } else {
        SamePrefix(mb, Render(b[1..]), ma, Render(a[1..]));
        MessagesPrefixFree(b[0], a[0]);
      }
    }
  }

  /** The error text determines exactly which rules were broken: two lists
      of violations render to the same text only when they are equal. */
  lemma {:induction false} RenderInjective(a: seq<Violation>, b: seq<Violation>)
    requires Render(a) == Render(b)
    ensures a == b
  {
    if |a| > 0 && |b| > 0 {
      HeadsAgree(a, b);
      CancelPrefix(Message(a[0]), Render(a[1..]), Render(b[1..]));
      RenderInjective(a[1..], b[1..]);
      assert a == [a[0]] + a[1..];
      assert b == [b[0]] + b[1..];
    }
  }

  /** Nothing is selected when no candidate is broken. */
  lemma {:induction false} SelectNone(candidates: seq<Violation>, broken: Violation -> bool)
    requires forall v :: v in candidates ==> !broken(v)
    ensures Select(candidates, broken) == []
  {
    if |candidates| > 0 {
      assert candidates[0] in candidates;
      assert forall v :: v in candidates[1..] ==> v in candidates;
      SelectNone(candidates[1..], broken);
    }
  }

  /** Selecting with two tests that agree on every rule gives the same list. */
  lemma {:induction false} SelectAgree(candidates: seq<Violation>, p: Violation -> bool, q: Violation -> bool)
    requires forall v :: p(v) == q(v)
    ensures Select(candidates, p) == Select(candidates, q)
  {
    if |candidates| > 0 {
      SelectAgree(candidates[1..], p, q);
    }
  }

  /** A list in checking order whose only member is `v` is `[v]`. */
  lemma SoleViolation(vs: seq<Violation>, v: Violation)
    requires InCheckOrder(vs) && v in vs
    requires forall w :: w in vs ==> w == v
    ensures vs == [v]
  {
    FirstTwoInOrder(vs);
    assert vs[0] in vs;
  }

  lemma FirstTwoInOrder(vs: seq<Violation>)
    requires InCheckOrder(vs)
    ensures |vs| > 1 ==> vs[0] in vs && vs[1] in vs && Rank(vs[0]) < Rank(vs[1])
  {
  }

  // ---------------------------------------------------------------------
  // The five rules both validators share
  // ---------------------------------------------------------------------

  /** The name, stock, price and min/max values a validator receives. */
  datatype Common = Common(name: Nullable<string>, min: Int32, max: Int32, inv: Int32, price: real)

  /** The shared rules, in checking order. */
  const CommonRules: seq<Violation> :=
    [NameBlank, StockBelowOne, PriceNotPositive, MaxBelowMin, StockOutsideRange]

  /** Whether `c` breaks the shared rule `v`. */
  predicate BreaksCommon(c: Common, v: Violation) {
    match v
    case NameBlank => IsBlank(c.name)
    case StockBelowOne => c.inv < 1
    case PriceNotPositive => c.price <= 0.0
    case MaxBelowMin => c.max < c.min
    case StockOutsideRange => c.inv < c.min || c.inv > c.max
    case _ => false
  }

  /** The string builder of both validators: walks the rules in checking
      order and appends the sentence of each broken one to `sb`, never
      stopping early and never removing text. */
  function AppendBroken(sb: string, rules: seq<Violation>, broken: Violation -> bool,
                        sentence: Violation -> string): (r: string)
    ensures r == sb + RenderWith(Select(rules, broken), sentence)
    decreases |rules|
  {
    if |rules| == 0 then sb
    else if broken(rules[0]) then
      var r := AppendBroken(sb + sentence(rules[0]), rules[1..], broken, sentence);
      RenderCons(rules[0], Select(rules[1..], broken), sentence);
      r
    else
      AppendBroken(sb, rules[1..], broken, sentence)
  }

  lemma RenderCons(v: Violation, vs: seq<Violation>, sentence: Violation -> string)
    ensures RenderWith([v] + vs, sentence) == sentence(v) + RenderWith(vs, sentence)
  {
    assert ([v] + vs)[0] == v && ([v] + vs)[1..] == vs;
  }

  /** Every shared rule holds: a non-blank name, positive stock and price,
      `min <= max`, and the stock within `[min, max]`. */
  predicate CommonValid(c: Common) {
    c.name.NonNull? && !AllTrimmable(c.name.value) &&
    1 <= c.inv && 0.0 < c.price && c.min <= c.max && c.min <= c.inv <= c.max
  }

  lemma CommonValidIff(c: Common)
    ensures CommonValid(c) <==> forall v :: v in CommonRules ==> !BreaksCommon(c, v)
  {
    BlankIff(c.name);
    if forall v :: v in CommonRules ==> !BreaksCommon(c, v) {
      assert !BreaksCommon(c, CommonRules[0]) && !BreaksCommon(c, CommonRules[1]);
      assert !BreaksCommon(c, CommonRules[2]) && !BreaksCommon(c, CommonRules[3]);
      assert !BreaksCommon(c, CommonRules[4]);
    }
  }

  /** The two min/max checks are independent, so a `max` below `min` always
      brings the range message along with it. */
  lemma MaxBelowMinBreaksRange(c: Common)
    requires BreaksCommon(c, MaxBelowMin)
    ensures BreaksCommon(c, StockOutsideRange)
  {
  }
}
