/** The cart service: the three tables it reaches through its repositories,
    updated in place by each call. */
module Service {
  import opened CartTables
  import CartWorkflow
  import CartProperties

  class CartService {
    var items: map<Id, Item>
    var carts: map<Id, Cart>
    var cartItems: map<Id, CartItem>
    // the next ids the cart and cart item inserts generate
    var nextCartId: Id
    var nextCartItemId: Id

    /** The tables as one value. */
    function State(): (st: Store)
      reads this
    {
      Store(items, carts, cartItems, nextCartId, nextCartItemId)
    }

    ghost predicate Valid()
      reads this
    {
      CartTables.Valid(State())
    }

    /** A service attached to a database that already holds tables. */
    constructor (db: Store)
      requires CartTables.Valid(db)
      ensures Valid()
      ensures State() == db
    {
      items := db.items;
      carts := db.carts;
      cartItems := db.cartItems;
      nextCartId := db.nextCartId;
      nextCartItemId := db.nextCartItemId;
    }

    method AddItem(itemId: Id, quantity: int, customer: Id) returns (r: CartWorkflow.Response)
      requires Valid()
      modifies this
      ensures Valid()
      ensures NoEmptyRows(old(cartItems)) && quantity > 0 ==> NoEmptyRows(cartItems)
      ensures CartWorkflow.Step(State(), r) == CartWorkflow.AddItem(old(State()), itemId, quantity, customer)
    {
      CartProperties.AddItemKeepsValid(State(), itemId, quantity, customer);
      if itemId !in items {
        return CartWorkflow.Err(CartWorkflow.BadRequest, "Cannot find item");
      }
      var item := items[itemId];
      if item.stock < quantity || item.status != AVAILABLE {
        return CartWorkflow.Err(CartWorkflow.BadRequest, "Item not available");
      }
      var found := CartOf(carts, customer);
      var cartId: Id;
      if found.None? {
        // insert the cart; the insert hands back the generated id
        carts := carts[nextCartId := Cart(customer)];
        cartId := nextCartId;
        nextCartId := nextCartId + 1;
      } else {
        cartId := found.value;
      }
      // a cart created above was not read back, so it has no loaded rows
      if found.Some? && Holds(cartItems, cartId, itemId) {
        return CartWorkflow.Err(CartWorkflow.BadRequest, "Item already in cart");
      }
      cartItems := cartItems[nextCartItemId := CartItem(cartId, itemId, quantity)];
      nextCartItemId := nextCartItemId + 1;
      r := CartWorkflow.Ok(CartWorkflow.View(State(), cartId));
    }

    method RemoveItem(itemId: Id, quantity: int, customer: Id) returns (r: CartWorkflow.Response)
      requires Valid()
      modifies this`cartItems
      ensures Valid()
      ensures NoEmptyRows(old(cartItems)) ==> NoEmptyRows(cartItems)
      ensures CartWorkflow.Step(State(), r) == CartWorkflow.RemoveItem(old(State()), itemId, quantity, customer)
    {
      CartProperties.RemoveItemKeepsValid(State(), itemId, quantity, customer);
      if itemId !in items {
        return CartWorkflow.Err(CartWorkflow.BadRequest, "Cannot find item");
      }
      var found := CartOf(carts, customer);
      if found.None? {
        return CartWorkflow.Err(CartWorkflow.BadRequest, "Cannot find cart");
      }
      var cartId := found.value;
      var selected := Selected(cartItems, cartId);
      if selected.None? {
        return CartWorkflow.Err(CartWorkflow.BadRequest, "Item is not in cart");
      }
      var rowId := selected.value;
      var row := cartItems[rowId];
      if quantity > row.quantity {
        return CartWorkflow.Err(CartWorkflow.BadRequest, "Unable to remove item because of quantity");
      }
      row := row.(quantity := row.quantity - quantity);
      if row.quantity == 0 {
        cartItems := cartItems - {rowId};
      } else {
        cartItems := cartItems[rowId := row];
      }
      r := CartWorkflow.Ok(CartWorkflow.View(State(), cartId));
    }

    /** Reads only; the response is that of `CartWorkflow.FindOne`. */
    function FindOne(id: Id): (r: CartWorkflow.Response)
      reads this
      ensures r.Ok? <==> id in carts
      ensures r == CartWorkflow.FindOne(State(), id)
    {
      CartWorkflow.FindOne(State(), id)
    }

    /** Reads only; the response is that of `CartWorkflow.MyCart`. */
    function MyCart(customer: Id): (r: CartWorkflow.Response)
      reads this
      ensures r.Ok? <==> exists k :: k in carts && carts[k].customerId == customer
      ensures r == CartWorkflow.MyCart(State(), customer)
    {
      CartWorkflow.MyCart(State(), customer)
    }

    method DeleteCart(id: Id, customer: Id) returns (r: CartWorkflow.Response)
      requires Valid()
      modifies this`carts
      ensures Valid()
      ensures CartWorkflow.Step(State(), r) == CartWorkflow.DeleteCart(old(State()), id, customer)
    {
      CartProperties.DeleteCartKeepsValid(State(), id, customer);
      if id !in carts || carts[id].customerId != customer {
        return CartWorkflow.Err(CartWorkflow.BadRequest, "Cannot find cart");
      }
      var cart := carts[id];
      carts := carts - {id};
      r := CartWorkflow.Ok(CartWorkflow.CartView(id, cart.customerId, None));
    }
  }
}
