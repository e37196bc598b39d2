/** The cart of the checkout page (js/app.js), and the invoice that submitting it makes. */
module Cart {
  import opened Basics
  import opened Schema
  import opened Ledger

  /** One entry of `posCart`. */
  datatype CartLine = CartLine(kind: ItemType, id: int, price: Money, quantity: int, stylist: Option<int>)

  type Key = (ItemType, int)

  function KeyOf(line: CartLine): Key {
    (line.kind, line.id)
  }

  /** `posCart.find` and the index of what it finds. */
  function Matching(kind: ItemType, id: int): CartLine -> bool {
    (line: CartLine) => line.kind == kind && line.id == id
  }

  /** `splice(index, 1)`: a negative index counts from the end, one beyond the end removes nothing. */
  function Splice(cart: seq<CartLine>, index: int): seq<CartLine> {
    var start := if index < 0 then (if |cart| + index < 0 then 0 else |cart| + index) else index;
    if start < |cart| then cart[..start] + cart[start + 1..] else cart
  }

  function Add(cart: seq<CartLine>, kind: ItemType, id: int, price: Money, firstStylist: Option<int>): seq<CartLine> {
    match Find(cart, Matching(kind, id))
    case Some(i) => cart[i := cart[i].(quantity := cart[i].quantity + 1)]
    case None => cart + [CartLine(kind, id, price, 1, firstStylist)]
  }

  function ChangeQuantity(cart: seq<CartLine>, index: nat, quantity: int): seq<CartLine>
    requires index < |cart|
  {
    if quantity <= 0 then Splice(cart, index) else cart[index := cart[index].(quantity := quantity)]
  }

  function LinePrice(line: CartLine): Money {
    line.price * line.quantity as real
  }

  /** The payload of a submitted line. */
  function Sent(line: CartLine): Line {
    Line(line.kind, line.id, line.stylist, line.quantity, line.price)
  }

  function Payload(cart: seq<CartLine>): (lines: seq<Line>)
    ensures |lines| == |cart|
  {
    seq(|cart|, i requires 0 <= i < |cart| => Sent(cart[i]))
  }

  /** What the page keeps: one line per item, and a quantity of at least one in each. */
  predicate Valid(cart: seq<CartLine>) {
    && (forall i, j :: 0 <= i < j < |cart| ==> KeyOf(cart[i]) != KeyOf(cart[j]))
    && (forall i :: 0 <= i < |cart| ==> cart[i].quantity >= 1)
  }

  class CartPage {
    var posCart: seq<CartLine>
    var stylists: seq<int>

    constructor (stylists: seq<int>)
      ensures posCart == [] && this.stylists == stylists
    {
      posCart, this.stylists := [], stylists;
    }

    method AddCartItem(kind: ItemType, id: int, price: Money)
      modifies `posCart
      ensures posCart == Add(old(posCart), kind, id, price, if stylists != [] then Some(stylists[0]) else None)
    {
      var existing := Find(posCart, Matching(kind, id));
      if existing.Some? {
        var line := posCart[existing.value];
        posCart := posCart[existing.value := line.(quantity := line.quantity + 1)];
      } else {
        posCart := posCart + [CartLine(kind, id, price, 1, if |stylists| > 0 then Some(stylists[0]) else None)];
      }
    }

    /** `posCart.splice(index, 1)`: the line goes and the ones behind it move up; no other quantity is touched. */
    method RemoveCartItem(index: int)
      modifies `posCart
      ensures index >= |old(posCart)| || old(posCart) == [] ==> posCart == old(posCart)
      ensures var k := if index >= 0 then index else if |old(posCart)| + index > 0 then |old(posCart)| + index else 0;
        k < |old(posCart)| ==>
          && |posCart| == |old(posCart)| - 1
          && forall i :: 0 <= i < |posCart| ==> posCart[i] == old(posCart)[if i < k then i else i + 1]
      ensures Valid(old(posCart)) ==> Valid(posCart)
      ensures Valid(old(posCart)) && 0 <= index < |old(posCart)| ==>
        Quantities(posCart) == Quantities(old(posCart)) - {KeyOf(old(posCart)[index])}
    {
      hide Valid, Quantities;
      var start := index;
      if start < 0 {
        start := if |posCart| + index < 0 then 0 else |posCart| + index;
      }
      if start < |posCart| {
        posCart := posCart[..start] + posCart[start + 1..];
      }
      if Valid(old(posCart)) {
        RemovalMeans(old(posCart), index, posCart);
      }
    }

    /** Throws, and changes nothing, when there is no such line. */
    method ChangeCartStylist(index: int, stylist: int) returns (r: Result<int, string>)
      modifies `posCart
      ensures r.Ok? <==> 0 <= index < |old(posCart)|
      ensures posCart == if r.Ok? then old(posCart)[index := old(posCart)[index].(stylist := Some(stylist))]
                         else old(posCart)
    {
      if !(0 <= index < |posCart|) {
        return Err("TypeError");
      }
      posCart := posCart[index := posCart[index].(stylist := Some(stylist))];
      r := Ok(index);
    }

    /** The quantity is written first, and the line removed if it is not positive. */
    method ChangeCartQty(index: int, quantity: int) returns (r: Result<int, string>)
      modifies `posCart
      ensures r.Ok? <==> 0 <= index < |old(posCart)|
      ensures posCart == if r.Ok? then ChangeQuantity(old(posCart), index, quantity) else old(posCart)
    {
      if !(0 <= index < |posCart|) {
        return Err("TypeError");
      }
      posCart := posCart[index := posCart[index].(quantity := quantity)];
      if posCart[index].quantity <= 0 {
        RemoveCartItem(index);
        assert posCart == old(posCart)[..index] + old(posCart)[index + 1..];
      }
      r := Ok(index);
    }

    /** The total that `updateCartUI` shows while it renders the lines. */
    method DisplayedTotal() returns (total: Money)
      ensures total == Sum(posCart, LinePrice)
    {
      total := 0.0;
      for k := 0 to |posCart|
        invariant total == Sum(posCart[..k], LinePrice)
      {
        SumAppend(posCart[..k], posCart[k], LinePrice);
        assert posCart[..k + 1] == posCart[..k] + [posCart[k]];
        total := total + LinePrice(posCart[k]);
      }
      assert posCart[..|posCart|] == posCart;
    }
  }

  // ----- What a cart means

  /** The quantity of each item in the cart. */
  function Quantities(cart: seq<CartLine>): (q: map<Key, int>) {
    if cart == [] then map[]
    else Quantities(cart[..|cart| - 1])[KeyOf(cart[|cart| - 1]) := cart[|cart| - 1].quantity]
  }

  lemma {:induction false} QuantityOf(cart: seq<CartLine>, i: nat)
    requires Valid(cart) && i < |cart|
    ensures KeyOf(cart[i]) in Quantities(cart) && Quantities(cart)[KeyOf(cart[i])] == cart[i].quantity
  {
    if i < |cart| - 1 {
      QuantityOf(cart[..|cart| - 1], i);
      assert KeyOf(cart[i]) != KeyOf(cart[|cart| - 1]);
    }
  }

  lemma {:induction false} NotInCart(cart: seq<CartLine>, key: Key)
    requires forall i :: 0 <= i < |cart| ==> KeyOf(cart[i]) != key
    ensures key !in Quantities(cart)
  {
    if cart != [] {
      NotInCart(cart[..|cart| - 1], key);
    }
  }

  /** Adding an item raises its quantity by one, from zero if it was not there, and no other. */
  lemma AddCounts(cart: seq<CartLine>, kind: ItemType, id: int, price: Money, stylist: Option<int>)
    requires Valid(cart)
    ensures var after := Add(cart, kind, id, price, stylist);
      var before := if (kind, id) in Quantities(cart) then Quantities(cart)[(kind, id)] else 0;
      && Valid(after)
      && Quantities(after) == Quantities(cart)[(kind, id) := before + 1]
  {
    hide Quantities;
    var found := Find(cart, Matching(kind, id));
    if found.Some? {
      QuantityOf(cart, found.value);
      SetOne(cart, found.value, cart[found.value].quantity + 1);
    } else {
      NewLineCounts(cart, CartLine(kind, id, price, 1, stylist));
    }
  }

  lemma NewLineCounts(cart: seq<CartLine>, line: CartLine)
    requires Valid(cart) && line.quantity >= 1
    requires forall i :: 0 <= i < |cart| ==> !Matching(line.kind, line.id)(cart[i])
    ensures Valid(cart + [line]) && KeyOf(line) !in Quantities(cart)
    ensures Quantities(cart + [line]) == Quantities(cart)[KeyOf(line) := line.quantity]
  {
    hide Quantities;
    forall i | 0 <= i < |cart|
      ensures KeyOf(cart[i]) != KeyOf(line)
    {
      assert !Matching(line.kind, line.id)(cart[i]);
    }
    NotInCart(cart, KeyOf(line));
    QuantitiesAppend(cart, line);
  }

  predicate HasLine(cart: seq<CartLine>, kind: ItemType, id: int) {
    exists i :: 0 <= i < |cart| && cart[i].kind == kind && cart[i].id == id
  }

  /**
   * Line by line: an item that no line has gets a new last line with its price, quantity 1 and the first stylist; if
   * some line has it, only the quantity of the first such line changes, by one.
   */
  lemma AddLines(cart: seq<CartLine>, kind: ItemType, id: int, price: Money, stylist: Option<int>)
    ensures var after := Add(cart, kind, id, price, stylist);
      && (!HasLine(cart, kind, id) ==> after == cart + [CartLine(kind, id, price, 1, stylist)])
      && (HasLine(cart, kind, id) ==>
            && |after| == |cart|
            && exists i :: 0 <= i < |cart| && cart[i].kind == kind && cart[i].id == id
                 && (forall j :: 0 <= j < i ==> !(cart[j].kind == kind && cart[j].id == id))
                 && (forall j :: 0 <= j < |cart| && j != i ==> after[j] == cart[j])
                 && after[i] == CartLine(kind, id, cart[i].price, cart[i].quantity + 1, cart[i].stylist))
  {
    assert forall i :: 0 <= i < |cart| ==>
      (Matching(kind, id)(cart[i]) <==> cart[i].kind == kind && cart[i].id == id);
    var found := Find(cart, Matching(kind, id));
    if found.Some? {
      var i, after := found.value, Add(cart, kind, id, price, stylist);
      assert after[i] == CartLine(kind, id, cart[i].price, cart[i].quantity + 1, cart[i].stylist);
    }
  }

  lemma {:induction false} SetOne(cart: seq<CartLine>, index: nat, quantity: int)
    requires Valid(cart) && index < |cart| && quantity >= 1
    ensures var after := cart[index := cart[index].(quantity := quantity)];
      Valid(after) && Quantities(after) == Quantities(cart)[KeyOf(cart[index]) := quantity]
  {
    var after := cart[index := cart[index].(quantity := quantity)];
    assert forall i :: 0 <= i < |cart| ==> KeyOf(after[i]) == KeyOf(cart[i]);
    if index < |cart| - 1 {
      SetOne(cart[..|cart| - 1], index, quantity);
      assert after[..|cart| - 1] == cart[..|cart| - 1][index := cart[index].(quantity := quantity)];
      assert KeyOf(cart[index]) != KeyOf(cart[|cart| - 1]);
    } else {
      assert after[..|cart| - 1] == cart[..|cart| - 1];
    }
  }

  lemma RemoveKeepsValid(cart: seq<CartLine>, index: nat)
    requires Valid(cart)
    ensures Valid(Splice(cart, index))
  {
  }

  lemma RemovalMeans(cart: seq<CartLine>, index: int, after: seq<CartLine>)
    requires Valid(cart) && after == Splice(cart, index)
    ensures Valid(after)
    ensures 0 <= index < |cart| ==> Quantities(after) == Quantities(cart) - {KeyOf(cart[index])}
  {
    hide Quantities, KeyOf;
    RemoveKeepsValid(cart, if index >= 0 then index else if |cart| + index < 0 then 0 else |cart| + index);
    if 0 <= index < |cart| {
      RemoveOne(cart, index);
    }
  }

  lemma {:induction false} RemoveOne(cart: seq<CartLine>, index: nat)
    requires Valid(cart) && index < |cart|
    ensures Quantities(Splice(cart, index)) == Quantities(cart) - {KeyOf(cart[index])}
  {
    var init, last := cart[..|cart| - 1], cart[|cart| - 1];
    if index == |cart| - 1 {
      assert Splice(cart, index) == init;
      NotInCart(init, KeyOf(last));
    } else {
      RemoveOne(init, index);
      SpliceBeforeLast(cart, index);
      QuantitiesAppend(Splice(init, index), last);
      RemoveThenSet(Quantities(init), KeyOf(cart[index]), KeyOf(last), last.quantity);
    }
  }

  lemma SpliceBeforeLast(cart: seq<CartLine>, index: nat)
    requires index < |cart| - 1
    ensures Splice(cart, index) == Splice(cart[..|cart| - 1], index) + [cart[|cart| - 1]]
  {
  }

  lemma QuantitiesAppend(cart: seq<CartLine>, line: CartLine)
    ensures Quantities(cart + [line]) == Quantities(cart)[KeyOf(line) := line.quantity]
  {
  }

  lemma RemoveThenSet(q: map<Key, int>, gone: Key, key: Key, n: int)
    requires gone != key
    ensures (q - {gone})[key := n] == q[key := n] - {gone}
  {
  }

  /** Setting a quantity sets that of one item, and one that is not positive takes the item out. */
  lemma ChangeCounts(cart: seq<CartLine>, index: nat, quantity: int)
    requires Valid(cart) && index < |cart|
    ensures var after := ChangeQuantity(cart, index, quantity);
      && Valid(after)
      && Quantities(after) == if quantity <= 0 then Quantities(cart) - {KeyOf(cart[index])}
                              else Quantities(cart)[KeyOf(cart[index]) := quantity]
  {
    if quantity <= 0 {
      RemoveKeepsValid(cart, index);
      RemoveOne(cart, index);
    } else {
      SetOne(cart, index, quantity);
    }
  }

  lemma SpliceLines(cart: seq<CartLine>, index: nat)
    requires index < |cart|
    ensures |Splice(cart, index)| == |cart| - 1
    ensures forall j :: 0 <= j < index ==> Splice(cart, index)[j] == cart[j]
    ensures forall j :: index < j < |cart| ==> Splice(cart, index)[j - 1] == cart[j]
  {
  }

  /** A positive quantity is all that changes, in one line; any other takes the line out, and those behind move up. */
  lemma ChangeLines(cart: seq<CartLine>, index: nat, quantity: int)
    requires index < |cart|
    ensures quantity >= 1 ==>
      var line := CartLine(cart[index].kind, cart[index].id, cart[index].price, quantity, cart[index].stylist);
      ChangeQuantity(cart, index, quantity) == cart[index := line]
    ensures quantity < 1 ==>
      var after := ChangeQuantity(cart, index, quantity);
      && |after| == |cart| - 1
      && (forall j :: 0 <= j < index ==> after[j] == cart[j])
      && (forall j :: index < j < |cart| ==> after[j - 1] == cart[j])
  {
    hide Splice;
    SpliceLines(cart, index);
  }

  // ----- Runs and submission

  datatype CartOp =
    | AddItem(kind: ItemType, id: int, price: Money, firstStylist: Option<int>)
    | Remove(index: int)
    | SetQuantity(index: int, quantity: int)
    | SetStylist(index: int, stylist: int)

  function Edit(cart: seq<CartLine>, op: CartOp): seq<CartLine> {
    match op
    case AddItem(kind, id, price, stylist) => Add(cart, kind, id, price, stylist)
    case Remove(index) => Splice(cart, index)
    case SetQuantity(index, quantity) => if 0 <= index < |cart| then ChangeQuantity(cart, index, quantity) else cart
    case SetStylist(index, stylist) =>
      if 0 <= index < |cart| then cart[index := cart[index].(stylist := Some(stylist))] else cart
  }

  function Edits(cart: seq<CartLine>, ops: seq<CartOp>): seq<CartLine>
    decreases |ops|
  {
    if ops == [] then cart else Edits(Edit(cart, ops[0]), ops[1..])
  }

  /** Over every run of edits, lines stay pairwise distinct with quantities of at least one. */
  lemma {:induction false} EditsKeepValid(cart: seq<CartLine>, ops: seq<CartOp>)
    requires Valid(cart)
    ensures Valid(Edits(cart, ops))
    decreases |ops|
  {
    if ops != [] {
      EditKeepsValid(cart, ops[0]);
      EditsKeepValid(Edit(cart, ops[0]), ops[1..]);
    }
  }

  lemma EditKeepsValid(cart: seq<CartLine>, op: CartOp)
    requires Valid(cart)
    ensures Valid(Edit(cart, op))
  {
    match op
    case AddItem(kind, id, price, stylist) =>
      AddCounts(cart, kind, id, price, stylist);
    case Remove(index) =>
      var start := if index < 0 then (if |cart| + index < 0 then 0 else |cart| + index) else index;
      RemoveKeepsValid(cart, start);
    case SetQuantity(index, quantity) =>
      if 0 <= index < |cart| {
        ChangeCounts(cart, index, quantity);
      }
    case SetStylist(index, stylist) =>
      assert forall i :: 0 <= i < |cart| ==> KeyOf(Edit(cart, op)[i]) == KeyOf(cart[i]);
  }

  lemma {:induction false} EditsAppend(cart: seq<CartLine>, ops: seq<CartOp>, op: CartOp)
    ensures Edits(cart, ops + [op]) == Edit(Edits(cart, ops), op)
    decreases |ops|
  {
    hide Edit;
    if ops == [] {
      assert ops + [op] == [op];
      assert Edits(Edit(cart, op), [op][1..]) == Edit(cart, op);
    } else {
      assert (ops + [op])[1..] == ops[1..] + [op];
      EditsAppend(Edit(cart, ops[0]), ops[1..], op);
    }
  }

  /** The line was there before the edit at the same price, or the edit adds it at that price. */
  predicate ComesFrom(cart: seq<CartLine>, op: CartOp, line: CartLine) {
    if HasLine(cart, line.kind, line.id) then
      exists j :: 0 <= j < |cart| && KeyOf(cart[j]) == KeyOf(line) && cart[j].price == line.price
    else
      op.AddItem? && op.kind == line.kind && op.id == line.id && op.price == line.price
  }

  lemma EditKeepsPrices(cart: seq<CartLine>, op: CartOp, i: nat)
    requires i < |Edit(cart, op)|
    ensures ComesFrom(cart, op, Edit(cart, op)[i])
  {
    var after := Edit(cart, op);
    match op
    case AddItem(kind, id, price, stylist) =>
      AddLines(cart, kind, id, price, stylist);
      if i < |cart| {
        assert KeyOf(cart[i]) == KeyOf(after[i]) && cart[i].price == after[i].price;
      }
    case Remove(index) =>
      SpliceKeepsLines(cart, index, i);
    case SetQuantity(index, quantity) =>
      if 0 <= index < |cart| && quantity <= 0 {
        SpliceKeepsLines(cart, index, i);
      } else {
        assert KeyOf(cart[i]) == KeyOf(after[i]) && cart[i].price == after[i].price;
      }
    case SetStylist(index, stylist) =>
      assert KeyOf(cart[i]) == KeyOf(after[i]) && cart[i].price == after[i].price;
  }

  lemma SpliceKeepsLines(cart: seq<CartLine>, index: int, i: nat)
    requires i < |Splice(cart, index)|
    ensures exists j :: 0 <= j < |cart| && cart[j] == Splice(cart, index)[i]
  {
    var start := if index < 0 then (if |cart| + index < 0 then 0 else |cart| + index) else index;
    assert Splice(cart, index)[i] == cart[if start >= |cart| || i < start then i else i + 1];
  }

  /** Edit `k` put the item into the cart at this price, and no edit since has taken it out. */
  ghost predicate MadeBy(ops: seq<CartOp>, k: nat, key: Key, price: Money) {
    && k < |ops| && ops[k].AddItem? && (ops[k].kind, ops[k].id) == key && ops[k].price == price
    && !HasLine(Edits([], ops[..k]), key.0, key.1)
    && forall j :: k < j <= |ops| ==> HasLine(Edits([], ops[..j]), key.0, key.1)
  }

  /** Over every run of edits, each line has the price of the `AddItem` that made it. */
  lemma {:induction false} PricesAreThoseAdded(ops: seq<CartOp>, i: nat)
    requires i < |Edits([], ops)|
    ensures var line := Edits([], ops)[i];
      exists k :: MadeBy(ops, k, KeyOf(line), line.price)
    decreases |ops|
  {
    hide Edit, Edits;
    if ops == [] {
      NoEdits();
    } else {
      var n := |ops| - 1;
      var init := ops[..n];
      assert ops == init + [ops[n]];
      EditsAppend([], init, ops[n]);
      var cart, line := Edits([], init), Edits([], ops)[i];
      EditKeepsPrices(cart, ops[n], i);
      assert ops[..|ops|] == ops;
      assert HasLine(Edits([], ops), line.kind, line.id);
      if HasLine(cart, line.kind, line.id) {
        var j :| 0 <= j < |cart| && KeyOf(cart[j]) == KeyOf(line) && cart[j].price == line.price;
        PricesAreThoseAdded(init, j);
        var k :| MadeBy(init, k, KeyOf(line), line.price);
        forall m | 0 <= m <= n
          ensures init[..m] == ops[..m]
        {
        }
        assert MadeBy(ops, k, KeyOf(line), line.price);
      } else {
        assert MadeBy(ops, n, KeyOf(line), line.price);
      }
    }
  }

  lemma NoEdits()
    ensures Edits([], []) == []
  {
  }

  /** An item row that was made of a cart line. */
  predicate MadeOf(item: Item, invoice: int, line: CartLine) {
    && item.invoice == invoice && item.kind == line.kind && item.item == line.id
    && item.stylist == line.stylist && item.quantity == line.quantity && item.price == line.price
  }

  function CartQuantity(cart: seq<CartLine>, key: Key): int {
    if key in Quantities(cart) then Quantities(cart)[key] else 0
  }

  lemma MadeOnce(ops: seq<CartOp>, k: nat, k': nat, key: Key, price: Money, price': Money)
    requires MadeBy(ops, k, key, price) && MadeBy(ops, k', key, price')
    ensures k == k' && price == price'
  {
    hide Edits, HasLine;
  }

  /** The price under which an item was put into the cart. */
  ghost function PriceAdded(ops: seq<CartOp>, key: Key): Money {
    if k, price :| MadeBy(ops, k, key, price) then price else 0.0
  }

  /** What the cart asks for an item: the price it was added at, times its quantity. */
  ghost function Asked(ops: seq<CartOp>): CartLine -> Money {
    (line: CartLine) => PriceAdded(ops, KeyOf(line)) * CartQuantity(Edits([], ops), KeyOf(line)) as real
  }

  /** The displayed total is, item by item, the price it was added at times its quantity. */
  lemma TotalIsAsked(ops: seq<CartOp>)
    ensures Sum(Edits([], ops), LinePrice) == Sum(Edits([], ops), Asked(ops))
  {
    hide Edits, Quantities, MadeBy;
    var cart := Edits([], ops);
    EditsKeepValid([], ops);
    forall i | 0 <= i < |cart|
      ensures LinePrice(cart[i]) == Asked(ops)(cart[i])
    {
      QuantityOf(cart, i);
      PricesAreThoseAdded(ops, i);
      var k :| MadeBy(ops, k, KeyOf(cart[i]), cart[i].price);
      var k', price' :| MadeBy(ops, k', KeyOf(cart[i]), price') && price' == PriceAdded(ops, KeyOf(cart[i]));
      MadeOnce(ops, k, k', KeyOf(cart[i]), cart[i].price, price');
    }
    SumAgree(cart, LinePrice, cart, Asked(ops));
  }

  /** Each product has lost exactly the quantity in the cart. */
  ghost predicate TakenFrom(before: seq<Product>, after: seq<Product>, cart: seq<CartLine>) {
    && |after| == |before|
    && forall i :: 0 <= i < |before| ==>
         after[i].stock == before[i].stock - CartQuantity(cart, (ProductItem, i + 1)) as real
  }

  /**
   * Submitting a cart that any run of edits made: the server's invoice carries the total the page displayed, it has
   * one item row per line in the order of the cart, and each product loses exactly the quantity in the cart.
   */
  lemma SubmittedTotalIsDisplayed(t: Tables, ops: seq<CartOp>, today: Date, user: int, client: Option<int>,
                                  payment: Payment)
    ensures var cart := Edits([], ops);
      var call := Call(today, user, Checkout(client, payment, Payload(cart)));
      var after := Step(t, call);
      Respond(t, call).reply.Ok? ==>
        && after.invoices == t.invoices + [Invoice(client, user, payment, Sum(cart, LinePrice), None, today)]
        && |after.items| == |t.items| + |cart|
        && (forall i :: 0 <= i < |cart| ==> MadeOf(after.items[|t.items| + i], |after.invoices|, cart[i]))
        && TakenFrom(t.products, after.products, cart)
  {
    hide Quantities, Edits, CartQuantity, TakenFrom, Respond;
    var cart := Edits([], ops);
    var call := Call(today, user, Checkout(client, payment, Payload(cart)));
    if Respond(t, call).reply.Ok? {
      SubmittedIsRungUp(t, call);
    }
    EditsKeepValid([], ops);
    SumAgree(cart, LinePrice, Payload(cart), LineTotal);
    StockAfterCart(t.products, cart);
  }

  lemma SubmittedIsRungUp(t: Tables, call: Call)
    requires call.request.Checkout? && Respond(t, call).reply.Ok?
    ensures Respond(t, call) ==
      RingUp(t, call.today, call.request.client, call.user, call.request.payment, call.request.lines, None)
  {
  }

  lemma StockAfterCart(products: seq<Product>, cart: seq<CartLine>)
    requires Valid(cart)
    ensures TakenFrom(products, AfterSale(products, Payload(cart)), cart)
  {
    hide CartQuantity, Sum;
    var after := AfterSale(products, Payload(cart));
    forall i | 0 <= i < |products|
      ensures after[i].stock == products[i].stock - CartQuantity(cart, (ProductItem, i + 1)) as real
    {
      TakenByCart(cart, i + 1);
    }
  }

  lemma TakenByCart(cart: seq<CartLine>, p: int)
    requires Valid(cart)
    ensures Sum(Payload(cart), Takes(p)) == CartQuantity(cart, (ProductItem, p)) as real
  {
    var found := Find(cart, Matching(ProductItem, p));
    if found.Some? {
      QuantityOf(cart, found.value);
      forall i | 0 <= i < |cart| && i != found.value
        ensures Takes(p)(Payload(cart)[i]) == 0.0
      {
        assert KeyOf(cart[i]) != KeyOf(cart[found.value]);
      }
      SumOfOne(Payload(cart), Takes(p), found.value);
    } else {
      forall i | 0 <= i < |cart|
        ensures KeyOf(cart[i]) != (ProductItem, p)
      {
        assert !Matching(ProductItem, p)(cart[i]);
      }
      NotInCart(cart, (ProductItem, p));
      SumZero(Payload(cart), Takes(p));
    }
  }
}
