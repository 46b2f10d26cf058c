/**
  The credit-package catalogue and purchases (the credit-package controller).

  A package is created under a name no other package has. A purchase copies
  the package's `credit_amount` and `price` into a new purchase row, so what a
  user has bought is fixed at purchase time; deleting a package removes only
  the package row.
 */
module CreditPackageController {
  import opened JsValues
  import opened Entities
  import opened Envelope
  import opened Repository
  import opened ValidUtils
  import opened Ledger

  /** The fields of a create request body. */
  datatype PackageBody = PackageBody(name: JsValue, creditAmount: JsValue, price: JsValue)

  predicate AcceptablePackageBody(b: PackageBody) {
    NonBlankString(b.name) && NonNegativeInteger(b.creditAmount) && NonNegativeInteger(b.price)
  }

  function PackageWithId(id: Id): CreditPackage -> bool {
    (p: CreditPackage) => p.id == id
  }

  function PackageNamed(name: string): CreditPackage -> bool {
    (p: CreditPackage) => p.name == name
  }

  function PackageNames(rows: seq<CreditPackage>): seq<string> { Keys(rows, (r: CreditPackage) => r.name) }

  // ---------------------------------------------------------------------------
  // getCreditPackages
  // ---------------------------------------------------------------------------

  /** Every package, in table order; read-only. */
  function GetCreditPackages(st: Store): (r: Handled)
    ensures r.store == st && r.response.Success? && r.response.code == 200
    ensures r.response.data.PackageList? && multiset(r.response.data.packages) == multiset(st.packages)
  {
    Handled(Success(200, PackageList(st.packages)), st)
  }

  // ---------------------------------------------------------------------------
  // postCreditPackage
  // ---------------------------------------------------------------------------

  function PostCreditPackage(st: Store, body: PackageBody): (r: Handled)
    ensures !r.response.Fault?
    ensures r.response.Failed? ==> r.store == st
    ensures r.response == Failed(400, MsgFieldsNotFilled) <==> !AcceptablePackageBody(body)
    ensures r.response == Failed(409, MsgDuplicate) <==>
      AcceptablePackageBody(body) && exists k :: 0 <= k < |st.packages| && st.packages[k].name == body.name.s
    ensures r.response.Failed? ==> r.response in {Failed(400, MsgFieldsNotFilled), Failed(409, MsgDuplicate)}
    ensures r.response.Success? ==>
      && r.response.code == 200 && r.response.data.PackageRow?
      && var p := r.response.data.package;
         && p.name == body.name.s && p.creditAmount == body.creditAmount.n.i && p.price == body.price.n.i
         && (forall k :: 0 <= k < |st.packages| ==> st.packages[k].id != p.id && st.packages[k].name != p.name)
         && r.store == st.(packages := st.packages + [p])
  {
    if IsInvalidString(body.name) || IsInvalidInteger(body.creditAmount) || IsInvalidInteger(body.price) then
      Handled(Failed(400, MsgFieldsNotFilled), st)
    else if CountWhere(st.packages, PackageNamed(body.name.s)) > 0 then
      Handled(Failed(409, MsgDuplicate), st)
    else
      var newPackage := CreditPackage(FreshId(PackageIds(st.packages)), body.name.s,
                                      body.creditAmount.n.i, body.price.n.i);
      Handled(Success(200, PackageRow(newPackage)), st.(packages := st.packages + [newPackage]))
  }

  /** A create, successful or not, keeps package names and keys unique. */
  lemma PostPackageKeepsUnique(st: Store, body: PackageBody)
    requires Distinct(PackageNames(st.packages)) && Distinct(PackageIds(st.packages))
    ensures var after := PostCreditPackage(st, body).store;
      Distinct(PackageNames(after.packages)) && Distinct(PackageIds(after.packages))
  {
    var r := PostCreditPackage(st, body);
    if r.response.Success? {
      var ps := r.store.packages;
      forall i, j | 0 <= i < j < |ps| ensures PackageNames(ps)[i] != PackageNames(ps)[j] && PackageIds(ps)[i] != PackageIds(ps)[j] {
        if j < |st.packages| {
          assert PackageNames(ps)[i] == PackageNames(st.packages)[i] && PackageNames(ps)[j] == PackageNames(st.packages)[j];
          assert PackageIds(ps)[i] == PackageIds(st.packages)[i] && PackageIds(ps)[j] == PackageIds(st.packages)[j];
        }
      }
    }
  }

  /** A created package is in the next listing. */
  lemma CreatedPackageListed(st: Store, body: PackageBody)
    requires PostCreditPackage(st, body).response.Success?
    ensures var r := PostCreditPackage(st, body);
      r.response.data.package in GetCreditPackages(r.store).response.data.packages
  {
    var r := PostCreditPackage(st, body);
    assert r.store.packages[|st.packages|] == r.response.data.package;
  }

  // ---------------------------------------------------------------------------
  // postCreditPackageId: buy a package
  // ---------------------------------------------------------------------------

  /** The purchase row a user gets for a package: its current terms copied, stamped `now`. */
  predicate IsSnapshot(p: CreditPurchase, userId: Id, pkg: CreditPackage, now: Stamp) {
    && p.userId == userId && p.packageId == pkg.id
    && p.purchasedCredits == pkg.creditAmount && p.pricePaid == pkg.price
    && p.purchaseAt == now
  }

  function PostCreditPackageId(st: Store, userId: Id, packageId: Id, now: Stamp): (r: Handled)
    ensures !r.response.Fault?
    ensures r.response.Failed? ==> r.store == st
    ensures r.response.Failed? <==> forall k :: 0 <= k < |st.packages| ==> st.packages[k].id != packageId
    ensures r.response.Failed? ==> r.response == Failed(400, MsgIdError)
    ensures r.response.Success? ==>
      && r.response == Success(200, NullData)
      && r.store == st.(purchases := r.store.purchases)
      && |r.store.purchases| == |st.purchases| + 1
      && r.store.purchases[..|st.purchases|] == st.purchases
      && (forall i :: 0 <= i < |st.purchases| ==> st.purchases[i].id != r.store.purchases[|st.purchases|].id)
      && exists k :: 0 <= k < |st.packages| && st.packages[k].id == packageId
           && IsSnapshot(r.store.purchases[|st.purchases|], userId, st.packages[k], now)
  {
    var creditPackage := FindFirst(st.packages, PackageWithId(packageId));
    if creditPackage.None? then
      Handled(Failed(400, MsgIdError), st)
    else
      var pkg := creditPackage.value;
      var newPurchase := CreditPurchase(FreshId(PurchaseIds(st.purchases)), userId, packageId,
                                        pkg.creditAmount, pkg.price, now);
      var purchases := st.purchases + [newPurchase];
      assert purchases[..|st.purchases|] == st.purchases;
      Handled(Success(200, NullData), st.(purchases := purchases))
  }

  /**
    With unique package keys, a purchase of the package at `k` raises the
    buyer's credits by exactly its `credit_amount` and leaves every other
    user's credits as they were.
   */
  lemma PurchaseRaisesCredits(st: Store, userId: Id, k: nat, now: Stamp)
    requires k < |st.packages| && Distinct(PackageIds(st.packages))
    ensures var r := PostCreditPackageId(st, userId, st.packages[k].id, now);
      && r.response.Success?
      && forall x :: Credits(r.store.purchases, x) ==
           Credits(st.purchases, x) + (if x == userId then st.packages[k].creditAmount else 0)
  {
    var r := PostCreditPackageId(st, userId, st.packages[k].id, now);
    var p := r.store.purchases[|st.purchases|];
    assert r.store.purchases == st.purchases + [p];
    var j :| 0 <= j < |st.packages| && st.packages[j].id == st.packages[k].id && IsSnapshot(p, userId, st.packages[j], now);
    assert PackageIds(st.packages)[j] == PackageIds(st.packages)[k];
    assert j == k;
    forall x ensures Credits(r.store.purchases, x) ==
                     Credits(st.purchases, x) + (if x == userId then st.packages[k].creditAmount else 0) {
      CreditsAppend(st.purchases, p, x);
    }
  }

  // ---------------------------------------------------------------------------
  // deleteCreditPackage
  // ---------------------------------------------------------------------------

  function DeleteCreditPackage(st: Store, packageId: string): (r: Handled)
    ensures !r.response.Fault?
    ensures r.response.Failed? ==> r.store == st && r.response.code == 400
    ensures r.response == Failed(400, MsgFieldsNotFilled) <==> !NonBlankString(Str(packageId))
    ensures r.response == Failed(400, MsgIdError) <==>
      NonBlankString(Str(packageId)) && forall k :: 0 <= k < |st.packages| ==> st.packages[k].id != packageId
    ensures r.response.Failed? ==> r.response.msg in {MsgFieldsNotFilled, MsgIdError}
    ensures r.response.Success? ==>
      && r.response.code == 200 && r.response.data.Removed? && r.response.data.affected > 0
      && r.store == st.(packages := r.store.packages)
      && |r.store.packages| == |st.packages| - r.response.data.affected
      && (forall i :: 0 <= i < |r.store.packages| ==> r.store.packages[i] in st.packages && r.store.packages[i].id != packageId)
      && (forall i :: 0 <= i < |st.packages| && st.packages[i].id != packageId ==> st.packages[i] in r.store.packages)
  {
    CatalogueMessagesDiffer();
    if IsInvalidString(Str(packageId)) then
      Handled(Failed(400, MsgFieldsNotFilled), st)
    else
      var result := DeleteWhere(st.packages, PackageWithId(packageId));
      if result.1 == 0 then
        Handled(Failed(400, MsgIdError), st)
      else
        Handled(Success(200, Removed(result.1)), st.(packages := result.0))
  }

  /** Purchases are snapshots: removing the package afterwards leaves the credits the purchase gave. */
  lemma PurchaseSurvivesPackageRemoval(st: Store, userId: Id, k: nat, now: Stamp)
    requires k < |st.packages| && Distinct(PackageIds(st.packages))
    ensures var bought := PostCreditPackageId(st, userId, st.packages[k].id, now).store;
      var removed := DeleteCreditPackage(bought, st.packages[k].id).store;
      Credits(removed.purchases, userId) == Credits(st.purchases, userId) + st.packages[k].creditAmount
  {
    PurchaseRaisesCredits(st, userId, k, now);
  }
}
