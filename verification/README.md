# Inventory system model layer, in Dafny

This project models the model layer of a small JavaFX inventory application:

- the `Part` record, with its in-house variant (a machine ID) and its outsourced variant (a company name);
- the `Product` record;
- the two validators `isPartValid` and `isProductValid`, which build an error message;
- the static `Inventory` store: a list of parts, a list of products, two ID counters, lookup by ID or name, and the two delete guards.

Every Java object becomes an immutable datatype value. Every mutating call becomes a pure function from the state before to the state after. The global state is one record, `Inventory.Store`. It holds both lists, both counters, and the single parts list that every product reads. In the Java code that list is a `static` field of `Product`, so `setProductParts` on any product changes what every product reports.

Java object identity, which `remove` and `contains` use because no class overrides `equals`, is an explicit `ref` number on each record. A Java `int` is the subtype `Int32`, and the counters wrap around as `++` does. A Java reference that may be `null` is `Nullable<T>`. A `NumberFormatException` from `Integer.parseInt` is `None`.

Modules:

- `JavaLang`: `int`, `null`, `parseInt`, `trim().isEmpty()`, `toLowerCase`.
- `Rules`: the violations, their messages, and the message builder.
- `Parts`: the part record, its setters, and `isPartValid`.
- `Products`: the product record, its setters, and `isProductValid`.
- `Lists`: identity-based `indexOf` and `remove`.
- `Inventory`: the store and its operations.

The validators are modelled in two layers. The first is the list of rules a form breaks, in checking order (`PartViolations`, `ProductViolations`). The second is the text those rules produce (`Render`). Every message has its own first character and sixteenth character, so the text alone determines which rules were broken (`Rules.RenderInjective`).

An empty parts list draws the price-sum message only when the product price is negative. The code compares the empty sum, 0, with the price, and a negative price is below it. `Products.EmptyPartsList` states this case.

## Model

| member | source | states |
|---|---|---|
| JavaLang.Wrap32 | src/main/java/Model/Inventory.java:58-61 | The `++` on a Java `int` counter: a value in range is unchanged, and one past the largest `int` becomes the smallest. |
| JavaLang.BlankIff | src/main/java/Model/Part.java:120 | `name == null \|\| name.trim().isEmpty()` holds exactly when the name is null or every character is at most U+0020. |
| JavaLang.TrimEmptyIff | src/main/java/Model/Part.java:136 | A string trims to the empty string exactly when all its characters are ones `trim` strips. |
| JavaLang.LowerAsciiIgnoresCase | src/main/java/Model/Inventory.java:111-112 | Lower-casing maps the upper-case and lower-case spellings of a term to the same text. Lower-casing twice is the same as once, so re-lowering the term on every iteration changes nothing. |
| JavaLang.ParseInt | src/main/java/Model/Inventory.java:202-210 | `Integer.parseInt` succeeds exactly on non-null text that is an optionally signed run of digits whose value fits in an `int`. It then yields that value. |
| JavaLang.IsInt | src/main/java/Model/Inventory.java:202-210 | `isInt` holds exactly when the text is an optionally signed run of digits whose value fits in an `int`, i.e. exactly when `Integer.parseInt` would not throw. |
| JavaLang.ParseShowInt | src/main/java/Model/Inventory.java:202-210 | Parsing the decimal text of any `int` gives that `int` back. So `isInt` holds of every ID written out in decimal. |
| Rules.AppendBroken | src/main/java/Model/Part.java:118-149 | The string builder: the result is the prefix followed by the sentence of every broken rule, in checking order. Nothing is skipped, removed or reordered. |
| Rules.SelectKeepsOrder | src/main/java/Model/Part.java:120-147 | The reported rules keep the validator's checking order, each rule at most once. |
| Rules.MessagesPrefixFree | src/main/java/Model/Part.java:121-146 | No message text is a prefix of another. |
| Rules.RenderInjective | src/main/java/Model/Part.java:117-150 | Two lists of reported rules that give the same text are the same list: the message identifies exactly which rules failed. |
| Rules.CommonValidIff | src/main/java/Model/Product.java:138-152 | The five shared checks all pass exactly when the name is not blank, `inv >= 1`, `price > 0`, `min <= max` and `min <= inv <= max`. |
| Rules.MaxBelowMinBreaksRange | src/main/java/Model/Part.java:129-134 | The two min/max checks are independent, so `max < min` always also breaks the range check. |
| Parts.NewInHousePart | src/main/java/Model/InHousePart.java:18-21 | A freshly built in-house part has machine ID 0, the property default. |
| Parts.NewOutsourcedPart | src/main/java/Model/OutsourcedPart.java:16-19 | A freshly built outsourced part has a null company name. |
| Parts.SetPartId | src/main/java/Model/Part.java:82-84 | Reading the ID back gives the value set; every other field is as before. |
| Parts.SetPartName | src/main/java/Model/Part.java:86-88 | Reading the name back gives the value set, null included; every other field is as before. |
| Parts.SetPartPrice | src/main/java/Model/Part.java:90-92 | Reading the price back gives the value set; every other field is as before. |
| Parts.SetPartInStock | src/main/java/Model/Part.java:94-96 | Reading the stock back gives the value set; every other field is as before. |
| Parts.SetPartMin | src/main/java/Model/Part.java:98-100 | Reading min back gives the value set; every other field is as before. |
| Parts.SetPartMax | src/main/java/Model/Part.java:102-104 | Reading max back gives the value set; every other field is as before. |
| Parts.PartSetterLaws | src/main/java/Model/Part.java:58-104 | Setting a field to the value its getter returns changes nothing. Of two writes to one field, the later wins. |
| Parts.SetCompanyName | src/main/java/Model/OutsourcedPart.java:25-31 | `getCompanyName` then returns the value set; the rest of the part is unchanged. |
| Parts.SetMachineId | src/main/java/Model/InHousePart.java:36-41 | An `IllegalArgumentException` is thrown exactly for a negative ID, and the part is then unchanged because the check comes before the write. Any other ID, 0 included, is stored and the rest of the part is unchanged. |
| Parts.IsPartValid | src/main/java/Model/Part.java:117-150 | The result is the prefix followed by the messages of the broken rules. It equals the prefix exactly when every rule for the part's variant holds. |
| Parts.PartViolationsExact | src/main/java/Model/Part.java:120-148 | A rule is reported exactly when the part's variant checks it and the arguments break it. |
| Parts.PartViolationsOrdered | src/main/java/Model/Part.java:117-150 | The reports come in the fixed checking order, each at most once. |
| Parts.VariantValidIff | src/main/java/Model/Part.java:135-148 | The variant checks pass exactly when an outsourced part's company name is not blank, or an in-house part's text parses to a positive `int`. |
| Parts.PartValidIff | src/main/java/Model/Part.java:117-150 | The part is valid exactly when no rule is reported. |
| Parts.CommonChecksReported | src/main/java/Model/Part.java:120-134 | Each shared message appears exactly under its condition. The conditions are: a null or whitespace-only name; `inv < 1`; `price <= 0`; `max < min`; `inv` outside `[min, max]`. |
| Parts.CompanyNameReported | src/main/java/Model/Part.java:135-138 | For an outsourced part, "Company Name is blank. " appears exactly when the text is null or whitespace only. |
| Parts.MachineIdInvalidReported | src/main/java/Model/Part.java:140-147 | For an in-house part, "Machine ID is invalid. " appears exactly when `Integer.parseInt` refuses the text. |
| Parts.MachineIdNotPositiveReported | src/main/java/Model/Part.java:140-144 | For an in-house part, "Machine ID must be greater than 0. " appears exactly when the text parses to a value of at most 0. |
| Parts.LowStockReported | src/main/java/Model/Part.java:123-125 | A stock count below 1, 0 included, is always reported. |
| Parts.PartMaxBelowMinBreaksRange | src/main/java/Model/Part.java:129-134 | A part told that max is below min is always also told that its stock is out of range. |
| Parts.OutsourcedSkipsMachineId | src/main/java/Model/Part.java:135-138 | An outsourced part never receives a machine-ID message. |
| Parts.InHouseSkipsCompanyName | src/main/java/Model/Part.java:139-148 | An in-house part never receives the company-name message. |
| Parts.MachineIdChecksExclusive | src/main/java/Model/Part.java:140-147 | The two machine-ID messages never appear together: the text is parsed once, and only a parsed value is compared with 0. |
| Parts.PartMessageIdentifiesViolations | src/main/java/Model/Part.java:117-150 | Two part forms validated with the same prefix that give the same text break the same rules. |
| Parts.WidgetIsValid | src/main/java/Model/Part.java:117-150 | The in-house part "Widget" is accepted: stock 10 within `[5, 20]`, price 2.50, machine ID "3". |
| Parts.MachineIdZeroSetButRejected | src/main/java/Model/InHousePart.java:36-41 | Machine ID 0 is accepted by the setter. The validator still reports it as not greater than 0. |
| Products.NewProduct | src/main/java/Model/Product.java:20-27 | A freshly built product has ID 0 and a null name. |
| Products.SetProductId | src/main/java/Model/Product.java:87-89 | Reading the ID back gives the value set; every other field is as before. |
| Products.SetProductName | src/main/java/Model/Product.java:91-93 | Reading the name back gives the value set; every other field is as before. |
| Products.SetProductPrice | src/main/java/Model/Product.java:95-97 | Reading the price back gives the value set; every other field is as before. |
| Products.SetProductInStock | src/main/java/Model/Product.java:99-101 | Reading the stock back gives the value set; every other field is as before. |
| Products.SetProductMin | src/main/java/Model/Product.java:103-105 | Reading min back gives the value set; every other field is as before. |
| Products.SetProductMax | src/main/java/Model/Product.java:107-109 | Reading max back gives the value set; every other field is as before. |
| Products.ProductSetterLaws | src/main/java/Model/Product.java:57-109 | Setting a field to the value its getter returns changes nothing. Of two writes to one field, the later wins. |
| Products.IsProductValid | src/main/java/Model/Product.java:130-161 | The loop sums the part prices. The result is the prefix followed by the messages of the broken rules. It equals the prefix exactly when all seven rules hold. |
| Products.ProductViolationsExact | src/main/java/Model/Product.java:138-158 | A rule is reported exactly when the product rules include it and the arguments break it. |
| Products.ProductViolationsOrdered | src/main/java/Model/Product.java:136-160 | The reports come in the fixed checking order, each at most once. |
| Products.ProductValidIff | src/main/java/Model/Product.java:130-161 | The product is valid exactly when no rule is reported. |
| Products.TooFewPartsReported | src/main/java/Model/Product.java:153-155 | "The product must contain at least 2 parts. " appears exactly when there are fewer than two parts. |
| Products.PartsCostReported | src/main/java/Model/Product.java:131-134 | The price-sum message appears exactly when the part prices add up to strictly more than the product price; equality passes. |
| Products.EmptyPartsList | src/main/java/Model/Product.java:153-158 | With no parts, the two-parts message always appears. The price-sum message appears exactly when the product price is negative. |
| Products.SinglePartOnlyComplaint | src/main/java/Model/Product.java:136-158 | A product that is otherwise fine but has one part gets exactly one message: it must contain at least two parts. |
| Products.ProductMessageIdentifiesViolations | src/main/java/Model/Product.java:130-161 | Two product forms that give the same text from the same prefix break the same rules. |
| Products.SharedRulesAgree | src/main/java/Model/Product.java:138-152 | On the same name, stock, price and bounds, the five shared rules are reported for a product exactly when they are reported for a part. |
| Lists.IndexOfKey | src/main/java/Model/Inventory.java:70 | Identity-based `indexOf`/`contains`: the first position holding the object, or -1 exactly when no position does. |
| Lists.RemoveKey | src/main/java/Model/Inventory.java:43-45 | Identity-based `remove(Object)`: the first occurrence is dropped, and the list is unchanged without one. |
| Inventory.ProductPartsShared | src/main/java/Model/Product.java:81-83 | `getProductParts` returns the same list whichever product it is called on: the single list the store holds. |
| Inventory.SetProductParts | src/main/java/Model/Product.java:114-116 | Setting the parts list through any product makes `getProductParts` return that list for every product; nothing else changes. |
| Inventory.AddPart | src/main/java/Model/Inventory.java:36-38 | The new list is the old one followed by the part, one longer; nothing else changes. |
| Inventory.RemovePart | src/main/java/Model/Inventory.java:43-45 | Only the first element that is the same object is removed. Without one, the store is unchanged. |
| Inventory.UpdatePart | src/main/java/Model/Inventory.java:51-53 | Position `index` holds the new part; the length and every other position are unchanged; nothing else changes. |
| Inventory.AddProd | src/main/java/Model/Inventory.java:138-140 | The new list is the old one followed by the product, one longer; nothing else changes. |
| Inventory.RemoveProd | src/main/java/Model/Inventory.java:145-147 | Only the first element that is the same object is removed. Without one, the store is unchanged. |
| Inventory.UpdateProd | src/main/java/Model/Inventory.java:194-196 | Position `index` holds the new product; the length and every other position are unchanged; nothing else changes. |
| Inventory.AddThenRemovePart | src/main/java/Model/Inventory.java:36-45 | Adding a part not yet listed and then removing it restores the store. |
| Inventory.AddThenRemoveProd | src/main/java/Model/Inventory.java:138-147 | Adding a product not yet listed and then removing it restores the store. |
| Inventory.UpdatePartWithSameIsIdentity | src/main/java/Model/Inventory.java:51-53 | Writing back the part already at a position changes nothing. |
| Inventory.UpdateProdWithSameIsIdentity | src/main/java/Model/Inventory.java:194-196 | Writing back the product already at a position changes nothing. |
| Inventory.NextPartId | src/main/java/Model/Inventory.java:58-61 | The counter is incremented before it is returned, so the result is the old count plus one, wrapping past the largest `int`. Only the part counter changes. |
| Inventory.NextProductId | src/main/java/Model/Inventory.java:152-155 | The same for the product counter. Only the product counter changes. |
| Inventory.CountersIndependent | src/main/java/Model/Inventory.java:58-155 | Drawing a part ID and a product ID gives the same IDs and the same store in either order. |
| Inventory.PartIdsCountUp | src/main/java/Model/Inventory.java:58-61 | Until the counter would overflow, `k` calls return the next `k` numbers in order and change only the part counter. |
| Inventory.PartIdsFromStart | src/main/java/Model/Inventory.java:20-61 | From start-up the part IDs are 1, 2, 3, ..., strictly increasing, and the product counter stays 0. |
| Inventory.LookupPart | src/main/java/Model/Inventory.java:98-126 | The result is -1 exactly when no part matches; otherwise it is an in-range index of a match and no later index matches. An `int` term matches by ID only. Any other term matches names case-insensitively. |
| Inventory.ScanPartIds | src/main/java/Model/Inventory.java:101-108 | The ID loop of `lookupPart`: it finds a part exactly when some part's ID equals the parsed term, and then holds the last such position. |
| Inventory.ScanPartNames | src/main/java/Model/Inventory.java:109-117 | The name loop of `lookupPart`: re-lowering the term on every pass, it finds a part exactly when some name equals the term ignoring case, and then holds the last such position. |
| Inventory.LookupProd | src/main/java/Model/Inventory.java:161-188 | The same contract as `LookupPart`, but names must match exactly, case included, and a null name never matches. |
| Inventory.ValidatePartDelete | src/main/java/Model/Inventory.java:67-75 | True exactly when some product's parts list contains the part object. With the shared list, that means there is a product and the shared list contains the part. |
| Inventory.ValidateProductDelete | src/main/java/Model/Inventory.java:81-92 | True exactly when some product with the same ID has a non-empty parts list. With the shared list, that means such a product exists and the shared list is not empty. |
| Inventory.SharedListBlocksEveryPart | src/main/java/Model/Product.java:114-116 | Once any product exists, giving one product a list containing a part blocks that part's deletion, whatever product the list was meant for. |

## Left out

- The JavaFX controllers, dialogs, table bindings and application launcher. They read form fields and call the operations modelled here.
- The JavaFX `Property` and `ObservableList` machinery and listeners: properties are plain fields, lists are sequences, and getters are field reads. `getPartInv` and `getProductInv` are the store's `parts` and `products`.
- Console output: the "No parts found." and "No products found." lines print nothing in the model.
- Floating-point prices. Prices are `real`, so the rounding of the `double` sum in `isProductValid` is not modelled.
- NaN and infinite prices. A price is a `real`, which has neither. In Java a NaN price makes both `price <= 0` and `sumOfParts > price` false, so it draws neither price message, and a product with a NaN price can pass. The form controllers read prices with `Double.parseDouble`, which accepts "NaN" and "Infinity".
- The live shared parts list. `getProductParts` hands out the static list itself, and the modify-product screen adds and removes its elements in place, even when the edit is later cancelled. The model's list is a value, so such an in-place change appears only as a `SetProductParts` call with the changed list.
- JavaLang.ParseInt: accepts an optional sign and ASCII digits only. Java also accepts non-ASCII Unicode digits.
- JavaLang.LowerAscii: lower-cases ASCII letters only. Java's `toLowerCase` is locale-dependent and covers all of Unicode.
- Inventory.LookupPart: requires every part name to be non-null when the term is not an `int`. The source calls `toLowerCase` on each part name there and throws `NullPointerException` on a null one. The exception is not modelled.
- Inventory.LookupPart and Inventory.LookupProd: the term is a non-null string. A null term makes `isInt` false and then throws `NullPointerException` at the first element in the source.
- Inventory.UpdatePart and Inventory.UpdateProd: require an index within the list. The source throws `IndexOutOfBoundsException` otherwise, and that exception is not modelled.
- Parts.SetCompanyName and Parts.SetMachineId: require the part to be of the matching variant, as the Java classes do by typing.
- Inventory.PartIdsFromStart: stated for the part counter only. `NextProductId` has the same contract, and `CountersIndependent` relates the two.
- Fresh objects: only the defaults the contracts mention are stated; the getters `getMachineID` and `getCompanyName` are field reads.
